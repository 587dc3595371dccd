/** The search tool of cmd/grep/main.go: `grep <pattern> <file>` reads the
    whole file, splits it on "\n" and prints every piece that contains the
    pattern, one `fmt.Println` per piece.

    The process's surroundings are parameters and results: the argument
    vector `args` (program name first, as in `os.Args`), the file system as a
    total function from paths to read results, and as results the lines
    written by `fmt.Println`, the exit status and the paths that were read. */
module Grep {
  import opened Text

  /** What `os.ReadFile` gives back: the bytes of the file, or an error whose
      text is `reason`. */
  datatype ReadResult = Content(data: string) | ReadError(reason: string)

  const Usage: string := "Usage: grep <pattern> <file>"
  const ReadErrorLabel: string := "Error reading file:"

  /** The pieces of `lines` that contain `pattern`, in order: what the loop
      over the split pieces prints. */
  function Matches(lines: seq<string>, pattern: string): seq<string>
    decreases |lines|
  {
    if |lines| == 0 then []
    else
      var last := lines[|lines| - 1];
      Matches(lines[..|lines| - 1], pattern) + (if Contains(last, pattern) then [last] else [])
  }

  /** The positions of the pieces of `lines` that contain `pattern`, in
      increasing order. */
  function MatchPositions(lines: seq<string>, pattern: string): seq<nat>
    decreases |lines|
  {
    if |lines| == 0 then []
    else
      var n := |lines| - 1;
      MatchPositions(lines[..n], pattern) + (if Contains(lines[n], pattern) then [n] else [])
  }

  /** The bytes written to standard output by one `fmt.Println` per line:
      each line followed by exactly one newline. */
  function Render(lines: seq<string>): string
    decreases |lines|
  {
    if |lines| == 0 then "" else lines[0] + "\n" + Render(lines[1..])
  }

  /** `main`, named Run here. A wrong argument count prints the usage line and exits with 1
      before anything is read; a failed read prints one error line and exits
      with 1 before any line is scanned; otherwise every split piece that
      contains the pattern is printed, in order, and the status is 0. */
  method Run(args: seq<string>, fs: string -> ReadResult)
    returns (stdout: seq<string>, exitCode: int, readPaths: seq<string>)
    ensures |args| != 3 ==> stdout == [Usage] && exitCode == 1 && readPaths == []
    ensures |args| == 3 ==> readPaths == [args[2]]
    ensures |args| == 3 && fs(args[2]).ReadError? ==>
              stdout == [ReadErrorLabel + " " + fs(args[2]).reason] && exitCode == 1
    ensures |args| == 3 && fs(args[2]).Content? ==>
              stdout == Matches(Split(fs(args[2]).data, '\n'), args[1]) && exitCode == 0
  {
    stdout, readPaths := [], [];
    if |args| != 3 {
      stdout := stdout + [Usage];
      exitCode := 1;
      return;
    }
    var file := args[2];
    var content := fs(file);
    readPaths := readPaths + [file];
    if content.ReadError? {
      // fmt.Println separates its two operands with one space
      stdout := stdout + [ReadErrorLabel + " " + content.reason];
      exitCode := 1;
      return;
    }
    var lines := Split(content.data, '\n');
    for i := 0 to |lines|
      invariant stdout == Matches(lines[..i], args[1])
    {
      var pattern := args[1];
      if Contains(lines[i], pattern) {
        stdout := stdout + [lines[i]];
      }
      assert lines[..i + 1][..i] == lines[..i];
    }
    assert lines[..|lines|] == lines;
    exitCode := 0;
  }

  /** Soundness: every printed line is one of the pieces and contains the
      pattern. */
  lemma {:induction false} MatchesSound(lines: seq<string>, pattern: string)
    ensures forall l :: l in Matches(lines, pattern) ==> l in lines && Contains(l, pattern)
    decreases |lines|
  {
    if |lines| > 0 {
      var n := |lines| - 1;
      MatchesSound(lines[..n], pattern);
      assert forall l :: l in lines[..n] ==> l in lines;
    }
  }

  /** Completeness, order and multiplicity: the printed lines are exactly the
      pieces at the matching positions, those positions increase, and a
      position is among them exactly when its piece contains the pattern. */
  lemma {:induction false} MatchesAreMatchingSubsequence(lines: seq<string>, pattern: string)
    ensures |MatchPositions(lines, pattern)| == |Matches(lines, pattern)|
    ensures forall k :: 0 <= k < |Matches(lines, pattern)| ==>
              MatchPositions(lines, pattern)[k] < |lines| &&
              Matches(lines, pattern)[k] == lines[MatchPositions(lines, pattern)[k]]
    ensures forall k, m :: 0 <= k < m < |MatchPositions(lines, pattern)| ==>
              MatchPositions(lines, pattern)[k] < MatchPositions(lines, pattern)[m]
    ensures forall j :: 0 <= j < |lines| ==>
              (j in MatchPositions(lines, pattern) <==> Contains(lines[j], pattern))
    decreases |lines|
  {
    if |lines| > 0 {
      var n := |lines| - 1;
      var front := lines[..n];
      MatchesAreMatchingSubsequence(front, pattern);
      var ps := MatchPositions(front, pattern);
      assert forall k :: 0 <= k < |ps| ==> ps[k] < n;
      assert forall j :: 0 <= j < n ==> front[j] == lines[j];
    }
  }

  /** Multiplicity: a matching line is printed once per piece equal to it,
      a non-matching line never. */
  lemma {:induction false} MatchesCount(lines: seq<string>, pattern: string, l: string)
    ensures multiset(Matches(lines, pattern))[l]
            == if Contains(l, pattern) then multiset(lines)[l] else 0
    decreases |lines|
  {
    if |lines| > 0 {
      var n := |lines| - 1;
      MatchesCount(lines[..n], pattern, l);
      assert lines == lines[..n] + [lines[n]];
    }
  }

  /** Nothing is printed exactly when no piece contains the pattern. */
  lemma {:induction false} NoMatchesIffNoPieceMatches(lines: seq<string>, pattern: string)
    ensures Matches(lines, pattern) == [] <==>
            forall j :: 0 <= j < |lines| ==> !Contains(lines[j], pattern)
    decreases |lines|
  {
    if |lines| > 0 {
      var n := |lines| - 1;
      NoMatchesIffNoPieceMatches(lines[..n], pattern);
      assert forall j :: 0 <= j < n ==> lines[..n][j] == lines[j];
    }
  }

  /** The empty pattern is contained in every piece, so every piece is
      printed. */
  lemma {:induction false} EmptyPatternMatchesAll(lines: seq<string>)
    ensures Matches(lines, "") == lines
    decreases |lines|
  {
    if |lines| > 0 {
      var n := |lines| - 1;
      EmptyPatternMatchesAll(lines[..n]);
      ContainsIffOccurs(lines[n], "");
      assert lines == lines[..n] + [lines[n]];
    }
  }

  /** When at least one line is printed, standard output is the printed
      lines joined by newlines, plus one final newline. */
  lemma {:induction false} RenderIsJoinPlusNewline(lines: seq<string>)
    requires |lines| >= 1
    ensures Render(lines) == Join(lines, '\n') + "\n"
    decreases |lines|
  {
    if |lines| > 1 {
      RenderIsJoinPlusNewline(lines[1..]);
    }
  }

  /** Reading standard output back: splitting it on newlines gives the
      printed lines followed by one empty piece (just the empty piece when
      nothing is printed), as long as no printed line holds a newline (split
      pieces never do). */
  lemma RenderSplitsBack(lines: seq<string>)
    requires forall k :: 0 <= k < |lines| ==> '\n' !in lines[k]
    ensures Split(Render(lines), '\n') == lines + [""]
  {
    if |lines| > 0 {
      RenderIsJoinPlusNewline(lines);
      JoinSnocEmpty(lines, '\n');
      SplitJoin(lines + [""], '\n');
    }
  }

  /** With the empty pattern the tool echoes the file and adds one newline:
      a file ending in "\n" yields a final empty piece that is printed as an
      extra empty line. */
  lemma EmptyPatternEchoesContent(content: string)
    ensures Render(Matches(Split(content, '\n'), "")) == content + "\n"
  {
    EmptyPatternMatchesAll(Split(content, '\n'));
    RenderIsJoinPlusNewline(Split(content, '\n'));
    JoinSplit(content, '\n');
  }

  /** The boundary case itself: content ending in a newline makes the last
      printed line empty when the pattern is empty. */
  lemma TrailingNewlinePrintsEmptyLine(content: string)
    requires |content| > 0 && content[|content| - 1] == '\n'
    ensures var out := Matches(Split(content, '\n'), "");
            |out| >= 2 && out[|out| - 1] == ""
  {
    TrailingSeparator(content, '\n');
    EmptyPatternMatchesAll(Split(content, '\n'));
  }

  /** "x\ny\n" with the empty pattern prints "x", "y" and an empty line. */
  lemma ExampleEmptyPatternTrailingNewline()
    ensures Render(Matches(Split("x\ny\n", '\n'), "")) == "x\ny\n\n"
  {
    EmptyPatternEchoesContent("x\ny\n");
  }

  /** A single matching line in the middle of the file. */
  lemma ExampleSingleMatch()
    ensures Render(Matches(Split("foo\nbar TODO\nbaz\n", '\n'), "TODO")) == "bar TODO\n"
  {
    SplitExample();
    MatchesExample();
  }

  /** Only the second piece of the example file holds "TODO". */
  lemma MatchesExample()
    ensures Matches(["foo", "bar TODO", "baz", ""], "TODO") == ["bar TODO"]
  {
    assert Contains("bar TODO", "TODO") by {
      assert OccursAt("bar TODO", "TODO", 4);
      ContainsIffOccurs("bar TODO", "TODO");
    }
    ContainsNeedsFirstChar("foo", "TODO");
    ContainsNeedsFirstChar("baz", "TODO");
    ContainsNeedsFirstChar("", "TODO");
    var pieces := ["foo", "bar TODO", "baz", ""];
    assert pieces[..3] == ["foo", "bar TODO", "baz"];
    assert ["foo", "bar TODO", "baz"][..2] == ["foo", "bar TODO"];
    assert ["foo", "bar TODO"][..1] == ["foo"];
    assert ["foo"][..0] == [];
  }

  /** The pieces of the example file. */
  lemma SplitExample()
    ensures Split("foo\nbar TODO\nbaz\n", '\n') == ["foo", "bar TODO", "baz", ""]
  {
    var pieces := ["foo", "bar TODO", "baz", ""];
    assert Join(pieces[2..], '\n') == "baz\n";
    assert Join(pieces[1..], '\n') == "bar TODO\nbaz\n";
    assert Join(pieces, '\n') == "foo\nbar TODO\nbaz\n";
    SplitJoin(pieces, '\n');
  }

  /** No line matches: nothing is printed (the exit status 0 comes from
      Run's own contract). */
  lemma ExampleNoMatch()
    ensures Matches(Split("aaa\nbbb\n", '\n'), "zzz") == []
  {
    var pieces := ["aaa", "bbb", ""];
    assert Join(pieces, '\n') == "aaa\nbbb\n";
    SplitJoin(pieces, '\n');
    forall j | 0 <= j < |pieces| ensures !Contains(pieces[j], "zzz") {
      ContainsNeedsFirstChar(pieces[j], "zzz");
    }
    NoMatchesIffNoPieceMatches(pieces, "zzz");
  }
}
