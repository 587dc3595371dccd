/** `find_result_files` of bench/report.py: which benchmark result files the
    report reads. A result file is identified by its stem, the file name
    without ".json"; stems are named `<benchmark type>_<date>_<time>`, and in
    latest-only mode the report keeps, per benchmark type, the file whose
    stem sorts last.

    The directory is an input: whether it exists, and the stems its
    `*.json` glob yields, in any order. Messages written to standard error are
    returned as lines. */
module ResultFiles {
  import opened Text
  import opened StringOrder

  const DirMissingMessage: string := "Error: Results directory not found: "
  const NoFilesMessage: string := "No result files found in "

  /** The benchmark type of a stem: `stem.rsplit("_", 2)`, and when that
      gives three parts, all but the last two joined back with "_". */
  function BenchType(stem: string): string {
    var parts := RSplit(stem, '_', 2);
    if |parts| >= 3 then Join(parts[..|parts| - 2], '_') else stem
  }

  /** The last two underscores of a stem that has at least two, and the
      three parts `rsplit("_", 2)` cuts at them. */
  lemma LastTwoSeparators(stem: string) returns (i: nat, j: nat)
    requires Count(stem, '_') >= 2
    ensures i < j < |stem| && stem[i] == '_' && stem[j] == '_'
    ensures '_' !in stem[i + 1..j] && '_' !in stem[j + 1..]
    ensures RSplit(stem, '_', 2) == [stem[..i], stem[i + 1..j], stem[j + 1..]]
  {
    CountConcat(stem, "", '_');
    assert stem + "" == stem;
    j := LastIndex(stem, '_');
    var front := stem[..j];
    CountBeforeLast(stem, '_');
    CountConcat(front, "", '_');
    assert front + "" == front;
    i := LastIndex(front, '_');
    assert front[..i] == stem[..i];
    assert front[i + 1..] == stem[i + 1..j];
    assert RSplit(front, '_', 1) == RSplit(front[..i], '_', 0) + [front[i + 1..]];
    assert RSplit(stem, '_', 2) == RSplit(front, '_', 1) + [stem[j + 1..]];
  }

  /** A stem with fewer than two underscores is its own type; otherwise the
      type is everything before the second-to-last underscore. */
  lemma BenchTypeDropsTwoSegments(stem: string)
    ensures Count(stem, '_') < 2 ==> BenchType(stem) == stem
    ensures Count(stem, '_') >= 2 ==>
              exists i, j :: 0 <= i < j < |stem| && stem[i] == '_' && stem[j] == '_' &&
                '_' !in stem[i + 1..j] && '_' !in stem[j + 1..] && BenchType(stem) == stem[..i]
  {
    RSplitLength(stem, '_', 2);
    if Count(stem, '_') >= 2 {
      var i, j := LastTwoSeparators(stem);
      var parts := RSplit(stem, '_', 2);
      assert parts[..|parts| - 2] == [stem[..i]];
    }
  }

  /** "a_b_c_d" has type "a_b": the last two segments are dropped. */
  lemma BenchTypeExampleFourSegments()
    ensures BenchType("a_b_c_d") == "a_b"
  {
    var stem := "a_b_c_d";
    assert stem[..5] == "a_b_c" && stem[6..] == "d";
    assert LastIndex(stem, '_') == 5;
    assert LastIndex(stem[..5], '_') == 3;
    assert stem[..5][..3] == "a_b" && stem[..5][4..] == "c";
    assert RSplit("a_b", '_', 0) == ["a_b"];
  }

  /** A stem with a single underscore is its own type. */
  lemma BenchTypeExampleOneSeparator()
    ensures BenchType("search_20240101") == "search_20240101"
  {
    var stem := "search_20240101";
    assert LastIndex(stem, '_') == 6;
    assert '_' !in stem[..6];
    assert RSplit(stem[..6], '_', 1) == [stem[..6]];
  }

  /* The grouping below is stated for any key function; the report groups
     by BenchType. */

  /** The distinct keys among `files`. */
  function Types(files: seq<string>, key: string -> string): set<string> {
    set f | f in files :: key(f)
  }

  /** The files with key `t`, in their order in `files`. */
  function Group(files: seq<string>, key: string -> string, t: string): seq<string>
    decreases |files|
  {
    if |files| == 0 then []
    else
      var last := files[|files| - 1];
      Group(files[..|files| - 1], key, t) + (if key(last) == t then [last] else [])
  }

  /** `f` is one of `files` and the greatest of those with its key. */
  ghost predicate IsLatest(files: seq<string>, key: string -> string, f: string) {
    f in files && forall g :: g in files && key(g) == key(f) ==> Below(g, f)
  }

  ghost predicate Distinct(s: seq<string>) {
    forall i, j :: 0 <= i < j < |s| ==> s[i] != s[j]
  }

  /** A group holds exactly the files with its key. */
  lemma {:induction false} GroupMembers(files: seq<string>, key: string -> string, t: string)
    ensures forall f :: f in Group(files, key, t) <==> f in files && key(f) == t
    decreases |files|
  {
    if |files| > 0 {
      var n := |files| - 1;
      GroupMembers(files[..n], key, t);
      assert files == files[..n] + [files[n]];
    }
  }

  lemma TypesSnoc(files: seq<string>, key: string -> string, f: string)
    ensures Types(files + [f], key) == Types(files, key) + {key(f)}
  {
    forall t | t in Types(files + [f], key) ensures t in Types(files, key) + {key(f)} {
      var g :| g in files + [f] && key(g) == t;
      if g != f {
        assert g in files;
      }
    }
    forall t | t in Types(files, key) ensures t in Types(files + [f], key) {
      var g :| g in files && key(g) == t;
      assert g in files + [f];
    }
    assert f in files + [f];
  }

  /** A key that does not occur has an empty group. */
  lemma {:induction false} GroupOfAbsentType(files: seq<string>, key: string -> string, t: string)
    requires t !in Types(files, key)
    ensures Group(files, key, t) == []
    decreases |files|
  {
    if |files| > 0 {
      var n := |files| - 1;
      assert files[n] in files;
      assert t !in Types(files[..n], key) by {
        forall g | g in files[..n] ensures key(g) != t {
          assert g in files;
        }
      }
      GroupOfAbsentType(files[..n], key, t);
    }
  }

  /** Appending a file extends its own group and no other. */
  lemma GroupSnoc(files: seq<string>, key: string -> string, f: string, t: string)
    ensures Group(files + [f], key, t) == Group(files, key, t) + (if key(f) == t then [f] else [])
  {
    assert (files + [f])[..|files|] == files;
  }

  /** If `s` is the files with key `t` sorted, and `t` occurs, then `s` is
      not empty and its last file is the greatest file with key `t`. */
  lemma LastOfSortedGroup(files: seq<string>, key: string -> string, t: string, s: seq<string>)
    requires t in Types(files, key)
    requires Sorted(s)
    requires forall f :: f in multiset(s) <==> f in files && key(f) == t
    ensures |s| > 0 && IsLatest(files, key, s[|s| - 1]) && key(s[|s| - 1]) == t
  {
    var f :| f in files && key(f) == t;
    assert f in multiset(s);
    var last := s[|s| - 1];
    assert last in multiset(s);
    forall g | g in files && key(g) == t ensures Below(g, last) {
      assert g in multiset(s);
      var p :| 0 <= p < |s| && s[p] == g;
      if p == |s| - 1 {
        BelowReflexive(g);
      }
    }
  }

  /** Distinct elements have multiplicity at most one, and conversely. */
  lemma {:induction false} DistinctIffSingleCounts(s: seq<string>)
    ensures Distinct(s) <==> forall x :: multiset(s)[x] <= 1
    decreases |s|
  {
    if |s| > 0 {
      var n := |s| - 1;
      var front := s[..n];
      DistinctIffSingleCounts(front);
      assert s == front + [s[n]];
      assert multiset(s) == multiset(front) + multiset{s[n]};
      if Distinct(s) {
        assert Distinct(front);
        assert s[n] !in front by {
          forall i | 0 <= i < n ensures front[i] != s[n] {
            assert s[i] != s[n];
          }
        }
      }
      if forall x :: multiset(s)[x] <= 1 {
        assert forall x :: multiset(front)[x] <= multiset(s)[x];
        forall i, j | 0 <= i < j < |s| ensures s[i] != s[j] {
          if j == n {
            assert multiset(front)[front[i]] >= 1;
            assert multiset(s)[s[n]] >= multiset(front)[s[n]] + 1;
          } else {
            assert front[i] == s[i] && front[j] == s[j];
          }
        }
      }
    }
  }

  /** A duplicate-free list is as long as the set of its elements. */
  lemma {:induction false} DistinctCardinality(s: seq<string>)
    requires Distinct(s)
    ensures |set x | x in s| == |s|
    decreases |s|
  {
    if |s| > 0 {
      var n := |s| - 1;
      var front := s[..n];
      assert Distinct(front);
      DistinctCardinality(front);
      assert (set x | x in s) == (set x | x in front) + {s[n]};
      assert s[n] !in (set x | x in front);
    }
  }

  /** Different files that are each the greatest with their key have
      different keys. */
  lemma LatestHaveDistinctTypes(files: seq<string>, key: string -> string, r: seq<string>)
    requires Distinct(r)
    requires forall f :: f in r ==> IsLatest(files, key, f)
    ensures forall i, j :: 0 <= i < j < |r| ==> key(r[i]) != key(r[j])
  {
    forall i, j | 0 <= i < j < |r| ensures key(r[i]) != key(r[j]) {
      if key(r[i]) == key(r[j]) {
        assert IsLatest(files, key, r[i]) && IsLatest(files, key, r[j]);
        BelowAntisymmetric(r[i], r[j]);
      }
    }
  }

  /** `find_result_files(results_dir, latest_only)`. */
  method FindResultFiles(dir: string, dirExists: bool, glob: seq<string>, latestOnly: bool)
    returns (files: seq<string>, stderr: seq<string>)
    ensures !dirExists ==> files == [] && stderr == [DirMissingMessage + dir]
    ensures dirExists && glob == [] ==> files == [] && stderr == [NoFilesMessage + dir]
    ensures dirExists && glob != [] ==> stderr == []
    ensures dirExists && !latestOnly ==> Sorted(files) && multiset(files) == multiset(glob)
    ensures dirExists && latestOnly ==> Sorted(files)
    ensures dirExists && latestOnly ==> forall f :: f in files ==> IsLatest(glob, BenchType, f)
    ensures dirExists && latestOnly ==>
              forall t :: t in Types(glob, BenchType) ==> exists f :: f in files && BenchType(f) == t
    ensures dirExists && latestOnly ==>
              forall i, j :: 0 <= i < j < |files| ==> BenchType(files[i]) != BenchType(files[j])
    ensures dirExists && latestOnly ==> |files| == |Types(glob, BenchType)|
  {
    stderr := [];
    if !dirExists {
      stderr := stderr + [DirMissingMessage + dir];
      return [], stderr;
    }
    var jsonFiles := Sort(glob);
    if |jsonFiles| == 0 {
      stderr := stderr + [NoFilesMessage + dir];
      return [], stderr;
    }
    if !latestOnly {
      return jsonFiles, stderr;
    }
    assert forall f :: f in jsonFiles <==> f in glob by {
      assert forall f :: f in jsonFiles <==> f in multiset(jsonFiles);
    }
    var groups, order := GroupByType(jsonFiles);
    var latestFiles := LatestOfGroups(jsonFiles, groups, order);
    files := Sort(latestFiles);
    LatestFacts(glob, jsonFiles, BenchType, order, latestFiles, files);
  }

  /** The first loop of the latest-only branch: each file is appended to the
      list of its benchmark type in a dictionary; `order` is the dictionary's
      keys in insertion order (FirstSeen), the order in which Python
      iterates them. */
  method GroupByType(jsonFiles: seq<string>)
    returns (groups: map<string, seq<string>>, order: seq<string>)
    ensures Grouped(jsonFiles, BenchType, groups, order)
  {
    groups, order := map[], [];
    for i := 0 to |jsonFiles|
      invariant Grouped(jsonFiles[..i], BenchType, groups, order)
    {
      var f := jsonFiles[i];
      ghost var (groups0, order0) := (groups, order);
      var benchType := BenchType(f);
      if benchType !in groups {
        groups := groups[benchType := []];
        order := order + [benchType];
      }
      groups := groups[benchType := groups[benchType] + [f]];
      assert jsonFiles[..i + 1] == jsonFiles[..i] + [f];
      GroupStep(jsonFiles[..i], BenchType, f, benchType, groups0, order0, groups, order);
    }
    assert jsonFiles[..|jsonFiles|] == jsonFiles;
  }

  /** The distinct keys of `files` in the order of their first occurrence:
      the order in which a Python dict iterates keys inserted while scanning
      `files`. */
  function FirstSeen(files: seq<string>, key: string -> string): seq<string>
    decreases |files|
  {
    if |files| == 0 then []
    else
      var seen := FirstSeen(files[..|files| - 1], key);
      var t := key(files[|files| - 1]);
      if t in seen then seen else seen + [t]
  }

  /** The state of the grouping loop after it has seen `files`. */
  ghost predicate Grouped(files: seq<string>, key: string -> string,
                          groups: map<string, seq<string>>, order: seq<string>) {
    && groups.Keys == Types(files, key)
    && order == FirstSeen(files, key)
    && (forall t :: t in groups ==> groups[t] == Group(files, key, t))
    && (forall t :: t in order <==> t in groups)
    && Distinct(order)
  }

  /** One step of the grouping loop keeps its state in step with the files
      seen so far. */
  lemma GroupStep(files: seq<string>, key: string -> string, f: string, t: string,
                  groups: map<string, seq<string>>, order: seq<string>,
                  groups': map<string, seq<string>>, order': seq<string>)
    requires Grouped(files, key, groups, order)
    requires t == key(f)
    requires groups' == groups[t := (if t in groups then groups[t] else []) + [f]]
    requires order' == if t in groups then order else order + [t]
    ensures Grouped(files + [f], key, groups', order')
  {
    TypesSnoc(files, key, f);
    assert groups'.Keys == Types(files + [f], key);
    forall u | u in groups' ensures groups'[u] == Group(files + [f], key, u) {
      GroupSnoc(files, key, f, u);
      if u == t && t !in groups {
        GroupOfAbsentType(files, key, t);
      }
    }
    assert order' == FirstSeen(files + [f], key) by {
      assert (files + [f])[..|files|] == files;
    }
    assert Distinct(order') by {
      if t !in groups {
        forall i, j | 0 <= i < j < |order'| ensures order'[i] != order'[j] {
          if j < |order| {
            assert order'[i] == order[i] && order'[j] == order[j];
          } else {
            assert order[i] in order;
          }
        }
      }
    }
  }

  /** The second loop of the latest-only branch: for each benchmark type,
      in dictionary order, the last file of its sorted list. */
  method LatestOfGroups(jsonFiles: seq<string>, groups: map<string, seq<string>>, order: seq<string>)
    returns (latestFiles: seq<string>)
    requires forall t :: t in order ==> t in groups && groups[t] == Group(jsonFiles, BenchType, t)
    requires forall t :: t in order ==> t in Types(jsonFiles, BenchType)
    ensures |latestFiles| == |order|
    ensures LatestUpTo(jsonFiles, BenchType, order, latestFiles)
  {
    latestFiles := [];
    for k := 0 to |order|
      invariant |latestFiles| == k
      invariant LatestUpTo(jsonFiles, BenchType, order, latestFiles)
    {
      var t := order[k];
      var sortedGroup := Sort(groups[t]);
      LatestStep(jsonFiles, BenchType, order, latestFiles, sortedGroup);
      latestFiles := latestFiles + [sortedGroup[|sortedGroup| - 1]];
    }
  }

  /** The state of the second loop: the file chosen for each key seen so far
      is the greatest file with that key. */
  ghost predicate LatestUpTo(files: seq<string>, key: string -> string,
                             order: seq<string>, latest: seq<string>) {
    |latest| <= |order| &&
    forall m :: 0 <= m < |latest| ==> IsLatest(files, key, latest[m]) && key(latest[m]) == order[m]
  }

  /** One step of the second loop: the last file of the next key's sorted
      group extends the loop's state. */
  lemma LatestStep(files: seq<string>, key: string -> string, order: seq<string>,
                   latest: seq<string>, sortedGroup: seq<string>)
    requires LatestUpTo(files, key, order, latest) && |latest| < |order|
    requires order[|latest|] in Types(files, key)
    requires Sorted(sortedGroup)
    requires multiset(sortedGroup) == multiset(Group(files, key, order[|latest|]))
    ensures |sortedGroup| > 0
    ensures LatestUpTo(files, key, order, latest + [sortedGroup[|sortedGroup| - 1]])
  {
    var t := order[|latest|];
    GroupMembers(files, key, t);
    assert forall f :: f in multiset(sortedGroup) <==> f in Group(files, key, t);
    LastOfSortedGroup(files, key, t, sortedGroup);
    var latest' := latest + [sortedGroup[|sortedGroup| - 1]];
    forall m | 0 <= m < |latest'|
      ensures IsLatest(files, key, latest'[m]) && key(latest'[m]) == order[m]
    {
      if m < |latest| {
        assert latest'[m] == latest[m];
      }
    }
  }

  /** What the second loop of the latest-only branch leaves behind, carried
      over to the final sort. */
  lemma LatestFacts(glob: seq<string>, jsonFiles: seq<string>, key: string -> string,
                    order: seq<string>, latestFiles: seq<string>, files: seq<string>)
    requires forall f :: f in jsonFiles <==> f in glob
    requires Distinct(order)
    requires forall t :: t in order <==> t in Types(jsonFiles, key)
    requires |latestFiles| == |order| && LatestUpTo(jsonFiles, key, order, latestFiles)
    requires multiset(files) == multiset(latestFiles)
    ensures forall f :: f in files ==> IsLatest(glob, key, f)
    ensures forall t :: t in Types(glob, key) ==> exists f :: f in files && key(f) == t
    ensures forall i, j :: 0 <= i < j < |files| ==> key(files[i]) != key(files[j])
    ensures |files| == |Types(glob, key)|
  {
    assert Types(jsonFiles, key) == Types(glob, key);
    assert forall f :: f in files <==> f in latestFiles by {
      assert forall f :: f in files <==> f in multiset(files);
    }
    forall f | f in files ensures IsLatest(glob, key, f) {
      var m :| 0 <= m < |latestFiles| && latestFiles[m] == f;
    }
    forall t | t in Types(glob, key) ensures exists f :: f in files && key(f) == t {
      var m :| 0 <= m < |order| && order[m] == t;
      assert latestFiles[m] in files;
    }
    assert Distinct(latestFiles) by {
      forall i, j | 0 <= i < j < |latestFiles| ensures latestFiles[i] != latestFiles[j] {
        assert order[i] != order[j];
      }
    }
    DistinctIffSingleCounts(latestFiles);
    DistinctIffSingleCounts(files);
    LatestHaveDistinctTypes(glob, key, files);
    DistinctCardinality(order);
    assert (set t | t in order) == Types(glob, key);
    assert |files| == |multiset(files)| == |latestFiles|;
  }
}
