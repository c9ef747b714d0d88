/** Pattern loading of the Go scanner (loadPatterns in main.go).

    The file system and the regular-expression compiler are parameters:
    `opens(path)` says whether os.Open succeeds, `read(path)` gives the lines
    bufio.Scanner yields for that file, and `compiles(line)` says whether
    regexp.Compile accepts the line. A compiled pattern is represented by its
    source text, which is what pattern.String() gives back. */
module Patterns {
  import opened Wrappers
  import opened Text
  import opened Lines

  const LocalDir := "patterns/"
  const SystemDir := "/usr/share/codehunter/patterns/"

  /** The locations probed for a patterns file, in probing order. */
  function SearchPaths(filename: string): seq<string>
  {
    [filename, LocalDir + filename, SystemDir + filename]
  }

  /** The index of the first path that opens, if any. */
  function FirstOpen(paths: seq<string>, opens: string -> bool): (r: Option<nat>)
    ensures r.Some? ==> r.value < |paths| && opens(paths[r.value])
                        && forall j :: 0 <= j < r.value ==> !opens(paths[j])
    ensures r.None? ==> forall j :: 0 <= j < |paths| ==> !opens(paths[j])
  {
    if paths == [] then None
    else if opens(paths[0]) then Some(0)
    else match FirstOpen(paths[1..], opens)
      case None => None
      case Some(i) => Some(i + 1)
  }

  /** The entries that compile, in order: these become patterns. */
  function Compilable(entries: seq<string>, compiles: string -> bool): (r: seq<string>)
    ensures |r| <= |entries|
    ensures forall k :: 0 <= k < |r| ==> compiles(r[k]) && r[k] in entries
  {
    if entries == [] then []
    else
      var init := Compilable(entries[..|entries| - 1], compiles);
      var last := entries[|entries| - 1];
      if compiles(last) then init + [last] else init
  }

  /** The entries that do not compile, in order: each one gets a warning. */
  function Uncompilable(entries: seq<string>, compiles: string -> bool): (r: seq<string>)
    ensures |r| <= |entries|
    ensures forall k :: 0 <= k < |r| ==> !compiles(r[k]) && r[k] in entries
  {
    if entries == [] then []
    else
      var init := Uncompilable(entries[..|entries| - 1], compiles);
      var last := entries[|entries| - 1];
      if compiles(last) then init else init + [last]
  }

  /** Every entry becomes either a pattern or a warning, never both and never
      neither. */
  lemma {:induction false} EveryEntryAccountedFor(entries: seq<string>, compiles: string -> bool)
    ensures |Compilable(entries, compiles)| + |Uncompilable(entries, compiles)| == |entries|
  {
    if entries != [] {
      EveryEntryAccountedFor(entries[..|entries| - 1], compiles);
    }
  }

  /** Compiling proceeds entry by entry: a failure in one chunk does not
      disturb the patterns of the next, and patterns stay in file order. */
  lemma {:induction false} CompilableAppend(a: seq<string>, b: seq<string>, compiles: string -> bool)
    ensures Compilable(a + b, compiles) == Compilable(a, compiles) + Compilable(b, compiles)
    decreases |b|
  {
    if b == [] {
      assert a + b == a;
    } else {
      var b' := b[..|b| - 1];
      assert (a + b)[..|a + b| - 1] == a + b';
      CompilableAppend(a, b', compiles);
    }
  }

  lemma CompileStep(entries: seq<string>, line: string, compiles: string -> bool)
    ensures Compilable(entries + [line], compiles)
            == if compiles(line) then Compilable(entries, compiles) + [line] else Compilable(entries, compiles)
    ensures Uncompilable(entries + [line], compiles)
            == if compiles(line) then Uncompilable(entries, compiles) else Uncompilable(entries, compiles) + [line]
  {
    assert (entries + [line])[..|entries|] == entries;
  }

  /** What loadPatterns returns: the patterns of the first search path that
      opens, or an error when none opens; and the lines reported as invalid. */
  function Loaded(filename: string, opens: string -> bool, read: string -> seq<string>,
                  compiles: string -> bool): (r: (Result<seq<string>, string>, seq<string>))
    ensures r.0.Failure? <==> forall j :: 0 <= j < |SearchPaths(filename)| ==> !opens(SearchPaths(filename)[j])
    ensures r.0.Failure? ==> r.1 == []
    ensures r.0.Success? ==> forall k :: 0 <= k < |r.0.value| ==> compiles(r.0.value[k]) && IsEntry(r.0.value[k])
    ensures forall k :: 0 <= k < |r.1| ==> !compiles(r.1[k]) && IsEntry(r.1[k])
  {
    var paths := SearchPaths(filename);
    match FirstOpen(paths, opens)
    case None => (Failure("could not find patterns file " + filename), [])
    case Some(i) =>
      var entries := Entries(read(paths[i]));
      (Success(Compilable(entries, compiles)), Uncompilable(entries, compiles))
  }

  /** The probe loop of loadPatterns: try the paths in order and stop at the
      first one that opens. */
  method ProbePaths(paths: seq<string>, opens: string -> bool) returns (found: Option<nat>)
    ensures found == FirstOpen(paths, opens)
  {
    var p := 0;
    while p < |paths|
      invariant 0 <= p <= |paths|
      invariant forall j :: 0 <= j < p ==> !opens(paths[j])
    {
      if opens(paths[p]) {
        return Some(p);
      }
      p := p + 1;
    }
    return None;
  }

  /** loadPatterns: probe the three search paths in order, open the first
      that opens, and keep every trimmed, non-blank, non-comment line that
      compiles. Lines that fail to compile are returned as `warnings` and
      loading carries on. */
  method LoadPatterns(filename: string, opens: string -> bool, read: string -> seq<string>,
                      compiles: string -> bool)
    returns (patterns: Result<seq<string>, string>, warnings: seq<string>)
    ensures (patterns, warnings) == Loaded(filename, opens, read, compiles)
    ensures patterns.Failure? <==> forall p :: p in SearchPaths(filename) ==> !opens(p)
    ensures patterns.Success? ==> forall k :: 0 <= k < |patterns.value| ==>
              IsEntry(patterns.value[k]) && TrimSpace(patterns.value[k]) == patterns.value[k]
              && compiles(patterns.value[k])
  {
    var paths := SearchPaths(filename);
    var found := ProbePaths(paths, opens);
    if found.None? {
      return Failure("could not find patterns file " + filename), [];
    }

    var lines := read(paths[found.value]);
    var kept: seq<string> := [];
    warnings := [];
    var i := 0;
    while i < |lines|
      invariant 0 <= i <= |lines|
      invariant kept == Compilable(Entries(lines[..i]), compiles)
      invariant warnings == Uncompilable(Entries(lines[..i]), compiles)
    {
      var line := TrimSpace(lines[i]);
      EntriesStep(lines, i);
      CommentTest(line);
      if line == "" || StartsWith(line, "#") {
        i := i + 1;
        continue;
      }
      CompileStep(Entries(lines[..i]), line, compiles);
      if !compiles(line) {
        warnings := warnings + [line];
        i := i + 1;
        continue;
      }
      kept := kept + [line];
      i := i + 1;
    }
    assert lines[..|lines|] == lines;
    EntriesTrimmed(lines);
    patterns := Success(kept);
  }

  /** A patterns file holding only blank and comment lines loads successfully
      with no patterns and no warnings: it is not an error. */
  lemma OnlyCommentsLoadsEmpty(filename: string, opens: string -> bool, read: string -> seq<string>,
                               compiles: string -> bool, i: nat)
    requires FirstOpen(SearchPaths(filename), opens) == Some(i)
    requires forall k :: 0 <= k < |read(SearchPaths(filename)[i])| ==>
               !IsEntry(TrimSpace(read(SearchPaths(filename)[i])[k]))
    ensures Loaded(filename, opens, read, compiles) == (Success([]), [])
  {
    var raw := read(SearchPaths(filename)[i]);
    if Entries(raw) != [] {
      EntriesMembership(raw, Entries(raw)[0]);
    }
  }

  /** At most one pattern per non-blank, non-comment line of the file used,
      and the patterns plus the warnings are exactly those lines. */
  lemma LoadedCount(filename: string, opens: string -> bool, read: string -> seq<string>,
                    compiles: string -> bool, i: nat)
    requires FirstOpen(SearchPaths(filename), opens) == Some(i)
    ensures var (r, warnings) := Loaded(filename, opens, read, compiles);
      var entries := Entries(read(SearchPaths(filename)[i]));
      && r.Success? && |r.value| <= |entries|
      && |r.value| + |warnings| == |entries|
  {
    EveryEntryAccountedFor(Entries(read(SearchPaths(filename)[i])), compiles);
  }
}
