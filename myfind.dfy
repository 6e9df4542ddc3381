/** myfind: the command-line collection of a search path and file names, and `findFile`, the
    `readdir` loop that looks for one name in a directory and, with `-R`, in the directories
    below it. The file tree is a value: the listing `readdir` would produce for every path
    `opendir` can open. */
module MyFind {
  import opened CText

  /** `MAX_FILES`: how many file names are searched at most. */
  const MAX_FILES: nat := 100
  /** `PATH_MAX` and `NAME_MAX` of <linux/limits.h>. */
  const PATH_MAX: nat := 4096
  const NAME_MAX: nat := 255

  // ---------------------------------------------------------------------------------------
  // Arguments

  /** What `main` does with its arguments: print the usage text and stop, or search for the
      collected names. The search path stays unset when the argument is longer than
      `PATH_MAX`. */
  datatype Arguments = Usage | Parsed(searchpath: Option<string>, filenames: seq<string>)

  /** The file names copied from the arguments from index `from` on: taken in order, at most
      `budget` of them, up to the first one longer than `NAME_MAX`. */
  function Collected(argv: seq<string>, from: nat, budget: nat): (names: seq<string>)
    ensures from + |names| <= |argv| || (from >= |argv| && names == [])
    ensures |names| <= budget
    ensures forall k :: 0 <= k < |names| ==> names[k] == argv[from + k] && |names[k]| <= NAME_MAX
    ensures |names| < budget && from + |names| < |argv| ==> |argv[from + |names|]| > NAME_MAX
    decreases |argv| - from
  {
    if budget == 0 || from >= |argv| || |argv[from]| > NAME_MAX then []
    else [argv[from]] + Collected(argv, from + 1, budget - 1)
  }

  /** `main` from the argument count check to the end of the collection loop, given what
      `getopt` left in `optind`. */
  function Parse(argv: seq<string>, optind: nat): Arguments {
    if |argv| < 3 || optind >= |argv| then Usage
    else if |argv[optind]| > PATH_MAX then Parsed(None, Collected(argv, optind, MAX_FILES))
    else if optind + 1 >= |argv| then Usage
    else Parsed(Some(argv[optind]), Collected(argv, optind + 1, MAX_FILES))
  }

  /** The argument checks of `main`: the search path is copied only when it fits `PATH_MAX`,
      and `optind` then moves past it. */
  method ParseArguments(argv: seq<string>, optind: nat) returns (parsed: Arguments)
    ensures parsed == Parse(argv, optind)
  {
    if |argv| < 3 {
      return Usage;
    }
    var next := optind;
    if !(next < |argv|) {
      return Usage;
    }
    var searchpath: Option<string> := None;
    if !(|argv[next]| > PATH_MAX) {
      searchpath := Some(argv[next]);
      next := next + 1;
    }
    if !(next < |argv|) {
      return Usage;
    }
    var filenames := CollectFilenames(argv, next);
    parsed := Parsed(searchpath, filenames);
  }

  /** The `for` loop that fills `filenames[MAX_FILES]` from `argv[optind..]`. The loop index
      `i` advances on every round, `optind` and `numberOfFiles` only when a name is copied, so
      a name longer than `NAME_MAX` is looked at again until `i` reaches `MAX_FILES`. */
  method CollectFilenames(argv: seq<string>, optind: nat) returns (names: seq<string>)
    ensures names == Collected(argv, optind, MAX_FILES)
  {
    var next := optind;
    var filenames := new string[MAX_FILES];
    var numberOfFiles := 0;
    var i := 0;
    while i < MAX_FILES && next < |argv|
      invariant 0 <= numberOfFiles <= i <= MAX_FILES
      invariant next == optind + numberOfFiles
      invariant numberOfFiles < i ==> next < |argv| && |argv[next]| > NAME_MAX
      invariant Collected(argv, optind, MAX_FILES)
             == filenames[..numberOfFiles] + Collected(argv, next, MAX_FILES - numberOfFiles)
      decreases MAX_FILES - i
    {
      if !(|argv[next]| > NAME_MAX) {
        ghost var before := filenames[..numberOfFiles];
        filenames[i] := argv[next];
        assert filenames[..numberOfFiles + 1] == before + [argv[next]];
        Regroup(before, argv[next], Collected(argv, next + 1, MAX_FILES - (numberOfFiles + 1)));
        next := next + 1;
        numberOfFiles := numberOfFiles + 1;
      }
      i := i + 1;
    }
    names := filenames[..numberOfFiles];
  }

  lemma Regroup<T>(before: seq<T>, x: T, after: seq<T>)
    ensures before + ([x] + after) == (before + [x]) + after
  {
  }

  /** The collected names are an in-order prefix of the arguments from `from` on. */
  lemma CollectedPrefix(argv: seq<string>, from: nat, budget: nat)
    requires from <= |argv|
    ensures Collected(argv, from, budget) <= argv[from..]
  {
    var names := Collected(argv, from, budget);
    assert names == argv[from..][..|names|];
  }

  /** Too few arguments, or no file name after an acceptable search path, prints the usage
      text and searches nothing; otherwise the collected names are searched. */
  lemma UsageCases(argv: seq<string>, optind: nat)
    ensures (Parse(argv, optind) == Usage) <==>
            (|argv| < 3 || optind >= |argv| || (|argv[optind]| <= PATH_MAX && optind + 1 == |argv|))
    ensures Parse(argv, optind).Parsed? && Parse(argv, optind).searchpath.Some? ==>
            Parse(argv, optind).searchpath.value == argv[optind]
  {
  }

  /** A search path longer than `PATH_MAX` is not copied, and since it is also longer than
      `NAME_MAX` no file name is collected after it: nothing is searched. */
  lemma {:induction false} LongPathCollectsNothing(argv: seq<string>, optind: nat)
    requires 3 <= |argv| && optind < |argv| && |argv[optind]| > PATH_MAX
    ensures Parse(argv, optind) == Parsed(None, [])
  {
  }

  // ---------------------------------------------------------------------------------------
  // File tree and name matching

  /** One `readdir` record: `d_name`, and whether `d_type` is `DT_DIR`. */
  datatype Entry = Entry(name: string, isDir: bool)

  /** Every path `opendir` can open, with the entries `readdir` returns for it in order
      ("." and ".." among them as the file system lists them). */
  type Tree = map<string, seq<Entry>>

  /** One printed hit: the directory searched and the `d_name` that matched, printed as
      `<dir>/<name>`. */
  datatype Hit = Hit(dir: string, name: string)

  /** What a search produced: its return value (1 or 0) and the hits it printed. */
  datatype Search = Search(found: bool, printed: seq<Hit>)

  /** `tolower` in the C locale. */
  function Lower(c: char): char {
    if 'A' <= c <= 'Z' then (c as int + 32) as char else c
  }

  /** `strcasecmp(a, b) == 0`: the strings agree character by character after `tolower`. */
  function SameIgnoringCase(a: string, b: string): (same: bool)
    ensures same <==> |a| == |b| && forall k :: 0 <= k < |a| ==> Lower(a[k]) == Lower(b[k])
  {
    if a == [] || b == [] then a == b
    else Lower(a[0]) == Lower(b[0]) && SameIgnoringCase(a[1..], b[1..])
  }

  /** The test `findFile` applies to each entry: `strcasecmp` with `-i`, `strcmp` without. */
  predicate Matches(name: string, filename: string, caseInsensitive: bool) {
    if caseInsensitive then SameIgnoringCase(name, filename) else name == filename
  }

  /** Whether the loop descends into an entry: only with `-R`, only into directories, and
      never into "." or "..". */
  predicate Descends(recursive: bool, e: Entry) {
    recursive && e.isDir && e.name != "." && e.name != ".."
  }

  /** The path of an entry found in, or searched below, `path`. */
  function Child(path: string, name: string): string {
    path + "/" + name
  }

  /** An upper bound on the length of the paths that can be opened; recursion into ever
      longer paths ends once no such path is left. */
  ghost function Longest(paths: set<string>): (n: nat)
    ensures forall p :: p in paths ==> |p| <= n
    decreases paths
  {
    if paths == {} then 0
    else
      var p :| p in paths;
      var rest := Longest(paths - {p});
      if |p| > rest then |p| else rest
  }

  // ---------------------------------------------------------------------------------------
  // findFile

  /** The search of `path`: nothing when it cannot be opened, otherwise its entries in order. */
  function Find(tree: Tree, path: string, filename: string, recursive: bool,
                caseInsensitive: bool): Search
    decreases Longest(tree.Keys) - |path|, 1, 0
  {
    if path !in tree then Search(false, [])
    else Scan(tree, path, tree[path], filename, recursive, caseInsensitive, Search(false, []))
  }

  /** The `readdir` loop over the remaining `entries` of `path`, `acc` being what the loop
      has so far. A match prints its path and ends the loop with 1; a descent replaces the
      result with that of the directory below. */
  function Scan(tree: Tree, path: string, entries: seq<Entry>, filename: string,
                recursive: bool, caseInsensitive: bool, acc: Search): Search
    requires path in tree
    decreases Longest(tree.Keys) - |path|, 0, |entries|
  {
    if entries == [] then acc
    else if Matches(entries[0].name, filename, caseInsensitive) then
      Search(true, acc.printed + [Hit(path, entries[0].name)])
    else if Descends(recursive, entries[0]) then
      var below := Find(tree, Child(path, entries[0].name), filename, recursive, caseInsensitive);
      Scan(tree, path, entries[1..], filename, recursive, caseInsensitive,
           Search(below.found, acc.printed + below.printed))
    else Scan(tree, path, entries[1..], filename, recursive, caseInsensitive, acc)
  }

  /** `findFile`: returns 1 or 0 and the paths it printed, as `Find` describes. */
  method FindFile(tree: Tree, searchpath: string, filename: string, recursive: bool,
                  caseInsensitive: bool) returns (found: int, printed: seq<Hit>)
    ensures var s := Find(tree, searchpath, filename, recursive, caseInsensitive);
      found == (if s.found then 1 else 0) && printed == s.printed
    decreases Longest(tree.Keys) - |searchpath|
  {
    found := 0;
    printed := [];
    if searchpath !in tree {
      return;
    }
    var entries := tree[searchpath];
    var i := 0;
    assert entries[i..] == entries;
    while i < |entries|
      invariant 0 <= i <= |entries|
      invariant found == 0 || found == 1
      invariant Scan(tree, searchpath, entries[i..], filename, recursive, caseInsensitive,
                     Search(found == 1, printed))
             == Find(tree, searchpath, filename, recursive, caseInsensitive)
    {
      var e := entries[i];
      assert entries[i..][1..] == entries[i + 1..];
      if caseInsensitive {
        if SameIgnoringCase(e.name, filename) {
          printed := printed + [Hit(searchpath, e.name)];
          found := 1;
          break;
        }
      } else if e.name == filename {
        printed := printed + [Hit(searchpath, e.name)];
        found := 1;
        break;
      }
      if recursive && e.isDir && e.name != "." && e.name != ".." {
        var tempPath := searchpath + "/" + e.name;
        var below, shown := FindFile(tree, tempPath, filename, recursive, caseInsensitive);
        found := below;
        printed := printed + shown;
      }
      i := i + 1;
    }
  }

  // ---------------------------------------------------------------------------------------
  // Properties of the search

  predicate AnyMatch(entries: seq<Entry>, filename: string, caseInsensitive: bool) {
    exists k :: 0 <= k < |entries| && Matches(entries[k].name, filename, caseInsensitive)
  }

  /** `dir` is `path` or lies below it. */
  predicate Within(dir: string, path: string) {
    dir == path || path + "/" <= dir
  }

  /** Any matching entry makes the loop return 1. */
  lemma {:induction false} MatchFinds(tree: Tree, path: string, entries: seq<Entry>, filename: string,
                                      recursive: bool, caseInsensitive: bool, acc: Search)
    requires path in tree && AnyMatch(entries, filename, caseInsensitive)
    ensures Scan(tree, path, entries, filename, recursive, caseInsensitive, acc).found
    decreases |entries|
  {
    if !Matches(entries[0].name, filename, caseInsensitive) {
      var k :| 0 <= k < |entries| && Matches(entries[k].name, filename, caseInsensitive);
      assert entries[1..][k - 1] == entries[k];
      var next := if Descends(recursive, entries[0]) then
        var below := Find(tree, Child(path, entries[0].name), filename, recursive, caseInsensitive);
        Search(below.found, acc.printed + below.printed)
      else acc;
      MatchFinds(tree, path, entries[1..], filename, recursive, caseInsensitive, next);
    }
  }

  /** A direct hit: when an entry of an opened directory matches, `findFile` returns 1. */
  lemma DirectHit(tree: Tree, path: string, filename: string, recursive: bool, caseInsensitive: bool)
    requires path in tree && AnyMatch(tree[path], filename, caseInsensitive)
    ensures Find(tree, path, filename, recursive, caseInsensitive).found
  {
    MatchFinds(tree, path, tree[path], filename, recursive, caseInsensitive, Search(false, []));
  }

  /** The loop stops at the first match: the entries after it are never looked at, and the hit
      printed last is that entry in this directory. */
  lemma {:induction false} FirstMatchStops(tree: Tree, path: string, entries: seq<Entry>, k: nat,
                                           filename: string, recursive: bool, caseInsensitive: bool,
                                           acc: Search)
    requires path in tree && k < |entries| && Matches(entries[k].name, filename, caseInsensitive)
    requires forall j :: 0 <= j < k ==> !Matches(entries[j].name, filename, caseInsensitive)
    ensures var r := Scan(tree, path, entries, filename, recursive, caseInsensitive, acc);
      r == Scan(tree, path, entries[..k + 1], filename, recursive, caseInsensitive, acc) &&
      r.found && r.printed != [] && r.printed[|r.printed| - 1] == Hit(path, entries[k].name)
    decreases k
  {
    if k > 0 {
      assert entries[..k + 1][1..] == entries[1..][..k];
      assert !Matches(entries[0].name, filename, caseInsensitive);
      var next := if Descends(recursive, entries[0]) then
        var below := Find(tree, Child(path, entries[0].name), filename, recursive, caseInsensitive);
        Search(below.found, acc.printed + below.printed)
      else acc;
      FirstMatchStops(tree, path, entries[1..], k - 1, filename, recursive, caseInsensitive, next);
    }
  }

  /** Without `-R` the loop only compares names: it returns 1 and prints one hit in `path`
      exactly when some entry matches, and otherwise leaves everything as it was. */
  lemma {:induction false} FlatScan(tree: Tree, path: string, entries: seq<Entry>, filename: string,
                                    caseInsensitive: bool, acc: Search)
    requires path in tree
    ensures var r := Scan(tree, path, entries, filename, false, caseInsensitive, acc);
      (AnyMatch(entries, filename, caseInsensitive) ==>
         r.found && |r.printed| == |acc.printed| + 1 && r.printed[..|acc.printed|] == acc.printed &&
         r.printed[|acc.printed|].dir == path &&
         Matches(r.printed[|acc.printed|].name, filename, caseInsensitive)) &&
      (!AnyMatch(entries, filename, caseInsensitive) ==> r == acc)
    decreases |entries|
  {
    if entries != [] && !Matches(entries[0].name, filename, caseInsensitive) {
      FlatScan(tree, path, entries[1..], filename, caseInsensitive, acc);
      if AnyMatch(entries, filename, caseInsensitive) {
        var k :| 0 <= k < |entries| && Matches(entries[k].name, filename, caseInsensitive);
        assert entries[1..][k - 1] == entries[k];
      } else {
        assert forall k :: 0 <= k < |entries[1..]| ==> entries[1..][k] == entries[k + 1];
      }
    }
  }

  /** Without `-R` no directory below `path` is opened: the search returns 1 exactly when an
      entry of `path` matches, and prints at most that one hit. */
  lemma NoRecursion(tree: Tree, path: string, filename: string, caseInsensitive: bool)
    ensures var r := Find(tree, path, filename, false, caseInsensitive);
      (r.found <==> path in tree && AnyMatch(tree[path], filename, caseInsensitive)) &&
      |r.printed| <= 1 &&
      (r.printed != [] ==> r.printed[0].dir == path &&
                           Matches(r.printed[0].name, filename, caseInsensitive))
  {
    if path in tree {
      FlatScan(tree, path, tree[path], filename, caseInsensitive, Search(false, []));
    }
  }

  /** Without `-R`, `-i` only adds hits: a name found with `strcmp` is found with
      `strcasecmp` too. */
  lemma CaseInsensitiveFindsMore(tree: Tree, path: string, filename: string)
    ensures Find(tree, path, filename, false, false).found ==>
            Find(tree, path, filename, false, true).found
  {
    NoRecursion(tree, path, filename, false);
    NoRecursion(tree, path, filename, true);
    if path in tree && AnyMatch(tree[path], filename, false) {
      var k :| 0 <= k < |tree[path]| && Matches(tree[path][k].name, filename, false);
      assert Matches(tree[path][k].name, filename, true);
    }
  }

  /** "." and ".." are passed over unless their name is the one searched for; with `-R` every
      other directory is searched at the path `path + "/" + name`, and its result replaces the
      loop's. */
  lemma Descent(tree: Tree, path: string, e: Entry, rest: seq<Entry>, filename: string,
                recursive: bool, caseInsensitive: bool, acc: Search)
    requires path in tree && !Matches(e.name, filename, caseInsensitive)
    ensures (e.name == "." || e.name == ".." || !recursive || !e.isDir) ==>
              (Scan(tree, path, [e] + rest, filename, recursive, caseInsensitive, acc)
               == Scan(tree, path, rest, filename, recursive, caseInsensitive, acc))
    ensures (recursive && e.isDir && e.name != "." && e.name != "..") ==>
              (var below := Find(tree, path + "/" + e.name, filename, recursive, caseInsensitive);
               Scan(tree, path, [e] + rest, filename, recursive, caseInsensitive, acc)
               == Scan(tree, path, rest, filename, recursive, caseInsensitive,
                       Search(below.found, acc.printed + below.printed)))
  {
    assert ([e] + rest)[1..] == rest;
  }

  /** Without any match, the loop's result is that of the last directory it descended into:
      a hit printed in an earlier subdirectory is forgotten when a later one finds nothing. */
  lemma {:induction false} LastDescentDecides(tree: Tree, path: string, before: seq<Entry>, e: Entry,
                                              after: seq<Entry>, filename: string,
                                              recursive: bool, caseInsensitive: bool, acc: Search)
    requires path in tree && Descends(recursive, e)
    requires !AnyMatch(before + [e] + after, filename, caseInsensitive)
    requires forall j :: 0 <= j < |after| ==> !Descends(recursive, after[j])
    ensures Scan(tree, path, before + [e] + after, filename, recursive, caseInsensitive, acc).found
         == Find(tree, Child(path, e.name), filename, recursive, caseInsensitive).found
    decreases |before|
  {
    var entries := before + [e] + after;
    assert !Matches(entries[0].name, filename, caseInsensitive);
    var next := if Descends(recursive, entries[0]) then
      var below := Find(tree, Child(path, entries[0].name), filename, recursive, caseInsensitive);
      Search(below.found, acc.printed + below.printed)
    else acc;
    if before == [] {
      assert entries[1..] == after;
      PassOver(tree, path, after, filename, recursive, caseInsensitive, next);
    } else {
      assert entries[1..] == before[1..] + [e] + after;
      assert forall j :: 0 <= j < |entries[1..]| ==> entries[1..][j] == entries[j + 1];
      LastDescentDecides(tree, path, before[1..], e, after, filename, recursive, caseInsensitive, next);
    }
  }

  /** Entries that neither match nor are descended into change nothing. */
  lemma {:induction false} PassOver(tree: Tree, path: string, entries: seq<Entry>, filename: string,
                                    recursive: bool, caseInsensitive: bool, acc: Search)
    requires path in tree
    requires forall j :: 0 <= j < |entries| ==>
               !Matches(entries[j].name, filename, caseInsensitive) && !Descends(recursive, entries[j])
    ensures Scan(tree, path, entries, filename, recursive, caseInsensitive, acc) == acc
    decreases |entries|
  {
    if entries != [] {
      assert forall j :: 0 <= j < |entries[1..]| ==> entries[1..][j] == entries[j + 1];
      PassOver(tree, path, entries[1..], filename, recursive, caseInsensitive, acc);
    }
  }

  /** The overwrite, on a concrete tree: "d" holds the directories "a" and "b", "d/a" holds
      "x", "d/b" is empty. A recursive search for "x" prints the hit "d/a/x" and still
      returns 0. */
  lemma HitForgotten()
    ensures var tree := map["d" := [Entry("a", true), Entry("b", true)],
                            "d/a" := [Entry("x", false)], "d/b" := []];
      Find(tree, "d", "x", true, false) == Search(false, [Hit("d/a", "x")])
  {
    var tree := map["d" := [Entry("a", true), Entry("b", true)],
                    "d/a" := [Entry("x", false)], "d/b" := []];
    assert Child("d", "a") == "d/a" && Child("d", "b") == "d/b";
    var a := Find(tree, "d/a", "x", true, false);
    assert a == Search(true, [Hit("d/a", "x")]);
    var b := Find(tree, "d/b", "x", true, false);
    assert b == Search(false, []);
  }

  /** What the search prints is sound: every hit names an entry that matched, in `path` or a
      directory below it; and a search that returns 1 has printed at least one hit. */
  lemma {:induction false} FindPrinted(tree: Tree, path: string, filename: string, recursive: bool,
                                       caseInsensitive: bool)
    ensures var r := Find(tree, path, filename, recursive, caseInsensitive);
      (r.found ==> r.printed != []) &&
      forall h :: h in r.printed ==> Matches(h.name, filename, caseInsensitive) && Within(h.dir, path)
    decreases Longest(tree.Keys) - |path|, 1, 0
  {
    if path in tree {
      ScanPrinted(tree, path, tree[path], filename, recursive, caseInsensitive, Search(false, []));
    }
  }

  lemma {:induction false} ScanPrinted(tree: Tree, path: string, entries: seq<Entry>, filename: string,
                                       recursive: bool, caseInsensitive: bool, acc: Search)
    requires path in tree
    requires acc.found ==> acc.printed != []
    requires forall h :: h in acc.printed ==> Matches(h.name, filename, caseInsensitive) && Within(h.dir, path)
    ensures var r := Scan(tree, path, entries, filename, recursive, caseInsensitive, acc);
      (r.found ==> r.printed != []) &&
      forall h :: h in r.printed ==> Matches(h.name, filename, caseInsensitive) && Within(h.dir, path)
    decreases Longest(tree.Keys) - |path|, 0, |entries|
  {
    if entries != [] && !Matches(entries[0].name, filename, caseInsensitive) {
      var next := acc;
      if Descends(recursive, entries[0]) {
        var child := Child(path, entries[0].name);
        var below := Find(tree, child, filename, recursive, caseInsensitive);
        FindPrinted(tree, child, filename, recursive, caseInsensitive);
        forall h | h in below.printed
          ensures Within(h.dir, path)
        {
          WithinChild(h.dir, path, entries[0].name);
        }
        next := Search(below.found, acc.printed + below.printed);
      }
      ScanPrinted(tree, path, entries[1..], filename, recursive, caseInsensitive, next);
    }
  }

  /** Below `path + "/" + name` is below `path`. */
  lemma WithinChild(dir: string, path: string, name: string)
    requires Within(dir, Child(path, name))
    ensures Within(dir, path)
  {
    assert (path + "/")[..] == Child(path, name)[..|path| + 1];
  }
}
