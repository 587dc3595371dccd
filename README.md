# A verified model of the grep tool and its benchmark report helpers

This project models two pieces of the repository in Dafny.

- **The search tool (cmd/grep/main.go).** `grep <pattern> <file>`:
  - checks the argument count;
  - reads the whole file;
  - splits it on `"\n"` with Go's `strings.Split`;
  - prints every piece that contains the pattern (`strings.Contains`), one `fmt.Println` per piece.

  `Grep.Run` is a method with the same loop. It takes the argument vector and the file system as inputs. It returns:
  - the printed lines;
  - the exit status;
  - the paths it read.

  `Grep.Render` turns the printed lines into the bytes written to standard output.
- **Two helpers of the benchmark report (bench/report.py).**
  - `get_tool_name` picks the tool name from a hyperfine command with a chain of substring tests. It is modelled by `ToolName.GetToolName`.
  - `find_result_files` lists result files and, in latest-only mode, keeps the newest file per benchmark type. It is modelled by `ResultFiles.FindResultFiles` and the two loop methods `GroupByType` and `LatestOfGroups`.
  - The directory is an input: whether it exists, and the stems its `*.json` glob yields. Messages to standard error are returned as lines.

Shared specification functions:

- `Text`: `Contains`, `Split`, `Join`, `Count`, `LastIndex`, and `RSplit` (Python's `str.rsplit` with a split limit).
- `StringOrder`: Python's string order `Below`, and `Sort`, the result of the built-in `sorted`.

Files:

| file | module |
|---|---|
| text.dfy | Text |
| string_order.dfy | StringOrder |
| grep.dfy | Grep |
| tool_name.dfy | ToolName |
| result_files.dfy | ResultFiles |

## Model

| member | source | states |
|---|---|---|
| Grep.Matches | cmd/grep/main.go:26-31 | the lines the filter loop prints; no ensures of its own: characterized by Grep.MatchesSound, Grep.MatchesAreMatchingSubsequence and Grep.MatchesCount, and tied to the loop by Grep.Run |
| Grep.Render | cmd/grep/main.go:29 | the bytes one fmt.Println per line writes; no ensures of its own: characterized by Grep.RenderIsJoinPlusNewline and Grep.RenderSplitsBack |
| Grep.Run | cmd/grep/main.go:9-32 | wrong argument count: only the usage line, exit 1, no file read; read error: one "Error reading file: <err>" line, exit 1, no line scanned; otherwise exactly the split pieces that contain the pattern, in order, and exit 0 |
| Grep.MatchesSound | cmd/grep/main.go:26-30 | every printed line is one of the pieces and contains the pattern |
| Grep.MatchesAreMatchingSubsequence | cmd/grep/main.go:25-31 | the printed lines are the pieces at strictly increasing positions, and a position is among them exactly when its piece contains the pattern |
| Grep.MatchesCount | cmd/grep/main.go:26-31 | a matching line is printed once per piece equal to it; a non-matching line is never printed |
| Grep.NoMatchesIffNoPieceMatches | cmd/grep/main.go:26-32 | nothing is printed exactly when no piece contains the pattern; the exit status 0 in that case comes from Grep.Run's ensures |
| Grep.EmptyPatternMatchesAll | cmd/grep/main.go:27-29 | the empty pattern prints every piece |
| Grep.RenderIsJoinPlusNewline | cmd/grep/main.go:29 | when at least one line is printed, standard output is the printed lines joined by newlines plus one final newline (when none is printed, Render gives the empty output) |
| Grep.RenderSplitsBack | cmd/grep/main.go:29 | splitting standard output on newlines gives the printed lines and one empty piece, also when nothing is printed |
| Grep.EmptyPatternEchoesContent | cmd/grep/main.go:24-29 | with the empty pattern, standard output is the file content followed by one newline |
| Grep.TrailingNewlinePrintsEmptyLine | cmd/grep/main.go:25-29 | content ending in a newline makes the last printed line empty when the pattern is empty |
| Grep.ExampleEmptyPatternTrailingNewline | cmd/grep/main.go:25-29 | "x\ny\n" with the empty pattern writes "x\ny\n\n" |
| Grep.ExampleSingleMatch | cmd/grep/main.go:25-29 | a file with one matching line in the middle writes only that line |
| Grep.SplitExample | cmd/grep/main.go:25 | the pieces of "foo\nbar TODO\nbaz\n", including the final empty piece |
| Grep.MatchesExample | cmd/grep/main.go:26-30 | only "bar TODO" of those pieces contains "TODO" |
| Grep.ExampleNoMatch | cmd/grep/main.go:26-32 | a pattern found in no line prints nothing |
| Text.Contains | cmd/grep/main.go:28 | strings.Contains and Python's `in` (bench/report.py:128-133); no ensures of its own: characterized by Text.ContainsIffOccurs |
| Text.Join | bench/report.py:310 | `"_".join` and strings.Join; no ensures of its own: characterized by Text.JoinSplit, Text.SplitJoin and Text.JoinRSplit |
| Text.RSplit | bench/report.py:308 | `rsplit("_", 2)`; no ensures of its own: characterized by Text.JoinRSplit, Text.RSplitLength and ResultFiles.LastTwoSeparators |
| Text.Split | cmd/grep/main.go:25 | strings.Split with a one-character separator always returns at least one piece |
| Text.JoinSplit | cmd/grep/main.go:25 | the pieces joined with the separator give back the content; there is one more piece than separators; no piece holds the separator |
| Text.SplitJoin | cmd/grep/main.go:25 | a non-empty list of pieces free of the separator comes back unchanged from Split after Join |
| Text.SplitPrefix | cmd/grep/main.go:25 | a separator-free prefix is glued onto the first piece |
| Text.TrailingSeparator | cmd/grep/main.go:25 | content ending in the separator splits into the pieces of the rest plus one empty piece |
| Text.JoinSnocEmpty | cmd/grep/main.go:25 | for a non-empty list of pieces, appending an empty piece adds one trailing separator |
| Text.ContainsIffOccurs | cmd/grep/main.go:28 | Contains holds exactly when the pattern occurs at some index; the empty pattern is contained in every string |
| Text.ContainsNeedsFirstChar | cmd/grep/main.go:28 | a pattern whose first character is absent is not contained |
| Text.CountConcat | cmd/grep/main.go:25 | separator counts add over concatenation, and a zero count means absence |
| Text.LastIndex | bench/report.py:308 | the index of the last occurrence: it holds the character and nothing after it does |
| Text.CountBeforeLast | bench/report.py:308 | cutting at the last separator leaves one separator fewer in front |
| Text.JoinRSplit | bench/report.py:308-310 | rsplit loses nothing: the parts joined with "_" give back the stem, and every part after the first is free of "_" |
| Text.RSplitLength | bench/report.py:308-309 | rsplit with limit 2 makes min(number of separators, 2) splits |
| Text.JoinSnoc | bench/report.py:310 | for a non-empty list of parts, joining one more part appends a separator and that part |
| StringOrder.Below | bench/report.py:297 | Python's `<=` on str; no ensures of its own: shown a total order by the four lemmas below |
| StringOrder.BelowReflexive | bench/report.py:297 | Python's string order is reflexive |
| StringOrder.BelowAntisymmetric | bench/report.py:297 | Python's string order is antisymmetric |
| StringOrder.BelowTransitive | bench/report.py:297 | Python's string order is transitive |
| StringOrder.BelowTotal | bench/report.py:297 | Python's string order is total |
| StringOrder.SortedHeadIsLeast | bench/report.py:297 | the first element of a sorted list is below every element |
| StringOrder.ConsSorted | bench/report.py:297 | an element below all of a sorted list can go in front |
| StringOrder.Insert | bench/report.py:297 | insertion keeps the list sorted and adds exactly one copy of the element |
| StringOrder.InsertInFront | bench/report.py:297 | an element below the head of a sorted list is below all of it |
| StringOrder.InsertBehindHead | bench/report.py:297 | the head stays in front of the tail after insertion |
| StringOrder.Sort | bench/report.py:297 | sorted returns a non-decreasing rearrangement of its input |
| StringOrder.SortedPermutationUnique | bench/report.py:297 | two sorted rearrangements of the same list are equal, so sorted has a single possible result |
| ToolName.GetToolName | bench/report.py:125-134 | get_tool_name; no ensures of its own: characterized by ToolName.MygrepIff, ToolName.RipgrepIff, ToolName.GnuGrepIff, ToolName.FallbackIsFirstWord and ToolName.IndexErrorIffBlank |
| ToolName.Fields | bench/report.py:134 | `str.split()`; no ensures of its own: characterized by ToolName.FieldsAreWords, ToolName.NoFieldsIffBlank and ToolName.FirstField |
| ToolName.Lower | bench/report.py:127 | lower() keeps the length and lower-cases each character in place |
| ToolName.Word | bench/report.py:134 | the longest whitespace-free prefix, ended by whitespace or the end of the string |
| ToolName.FieldsAreWords | bench/report.py:134 | the words from split() are non-empty and free of whitespace |
| ToolName.NoFieldsIffBlank | bench/report.py:134 | split() gives no word exactly when the string is empty or all whitespace |
| ToolName.FirstField | bench/report.py:134 | the first word is the whitespace-free run starting at the first non-whitespace character |
| ToolName.FirstFieldOccurs | bench/report.py:127-134 | the lower-cased first word occurs in the lower-cased command |
| ToolName.WordOccurs | bench/report.py:134 | the word starting at an index occurs in the string at that index |
| ToolName.LowerKeepsOccurrence | bench/report.py:127 | lower-casing keeps a substring occurrence at the same index |
| ToolName.FirstNonSpace | bench/report.py:134 | the index of the first non-whitespace character |
| ToolName.FallbackNameOccurs | bench/report.py:134 | when no rule applies, the name is the first word, which occurs in the lower-cased command |
| ToolName.MygrepIff | bench/report.py:127-129 | "mygrep" is returned exactly when the lower-cased command contains "mygrep", whatever else it contains |
| ToolName.RipgrepIff | bench/report.py:130-131 | "ripgrep" is returned exactly when the mygrep rule fails and the lower-cased command contains "ripgrep" or the command contains "rg " or "rg'" |
| ToolName.GnuGrepIff | bench/report.py:132-133 | "gnu-grep" is returned exactly when the first two rules fail and the lower-cased command contains "ggrep" or "gnu-grep" or the command contains "/grep" |
| ToolName.FallbackIsFirstWord | bench/report.py:134 | when no rule applies, the name is the whitespace-free run starting at the first non-whitespace character |
| ToolName.BlankContainsNoWord | bench/report.py:127-133 | a blank command contains no string that starts with a non-whitespace character |
| ToolName.IndexErrorIffBlank | bench/report.py:134 | the IndexError is raised exactly when the command is empty or all whitespace |
| ResultFiles.BenchType | bench/report.py:308-312 | the benchmark type of a stem; no ensures of its own: characterized by ResultFiles.BenchTypeDropsTwoSegments |
| ResultFiles.LastTwoSeparators | bench/report.py:308 | a stem with two or more underscores is cut by rsplit at its last two underscores into three parts |
| ResultFiles.BenchTypeDropsTwoSegments | bench/report.py:308-312 | a stem with fewer than two underscores is its own type; otherwise the type is everything before the second-to-last underscore |
| ResultFiles.BenchTypeExampleFourSegments | bench/report.py:308-310 | "a_b_c_d" has type "a_b" |
| ResultFiles.BenchTypeExampleOneSeparator | bench/report.py:308-312 | "search_20240101" is its own type |
| ResultFiles.GroupMembers | bench/report.py:314-316 | a group holds exactly the files with its type |
| ResultFiles.TypesSnoc | bench/report.py:306-316 | seeing one more file adds its type to the set of types |
| ResultFiles.GroupOfAbsentType | bench/report.py:314-315 | a type not yet seen has an empty group |
| ResultFiles.GroupSnoc | bench/report.py:316 | appending a file extends its own group and no other |
| ResultFiles.GroupStep | bench/report.py:306-316 | one step of the grouping loop keeps the dictionary and its key order in step with the files seen |
| ResultFiles.GroupByType | bench/report.py:305-316 | the dictionary's keys are the types; each list is the files of that type in input order; `order` is the keys in order of first occurrence (FirstSeen), the order in which the dictionary iterates them |
| ResultFiles.LastOfSortedGroup | bench/report.py:321 | the last element of a group's sorted list is the greatest file of that type |
| ResultFiles.LatestOfGroups | bench/report.py:319-321 | one file per dictionary key, in key order, each the greatest file of its type |
| ResultFiles.LatestStep | bench/report.py:320-321 | appending the last file of the next key's sorted group keeps every chosen file the greatest of its key |
| ResultFiles.DistinctIffSingleCounts | bench/report.py:319-323 | a list is duplicate-free exactly when every multiplicity is at most one |
| ResultFiles.DistinctCardinality | bench/report.py:319-323 | a duplicate-free list is as long as the set of its elements |
| ResultFiles.LatestHaveDistinctTypes | bench/report.py:319-323 | distinct files that are each greatest for their type have distinct types |
| ResultFiles.LatestFacts | bench/report.py:319-323 | the final list holds only greatest-of-type input files, one for each type, with no two of the same type, and is as long as the set of types |
| ResultFiles.FindResultFiles | bench/report.py:291-325 | missing directory: an error line and no files; empty glob: a message and no files; otherwise sorted, and either all files or, in latest-only mode, exactly one file per type, which is the greatest of its type |

## Left out

- I/O is not modelled. `os.Args`, `os.ReadFile`, `fmt.Println` and `os.Exit` become inputs and outputs of `Grep.Run`. The existence check and glob of the results directory become inputs of `ResultFiles.FindResultFiles`.
- Go bytes are modelled as `char`s: the content is a `seq<char>`, and Go's byte-level `strings.Split` and `strings.Contains` are modelled on that sequence. The text of the read error is an input.
- Text.Split is modelled only for a one-character separator, the only kind the source uses. `RSplit` likewise.
- ToolName.Lower maps only ASCII letters. Python's `str.lower` also maps other Unicode letters, and some characters change length when lower-cased.
- ResultFiles.FindResultFiles works on stems in code-point order. Python sorts `Path` objects by their full names. Names that share a prefix may then sort differently, because "." is compared where the stem ends. Paths are not modelled.
- StringOrder.Sort states only the result of Python's `sorted` (sorted, a permutation, unique by `SortedPermutationUnique`), not the Timsort algorithm. The source calls it as a library function.
- The float helpers are not modelled (`format_time`, `format_throughput`, `calculate_speedup`), nor the mean-based ranking: they are floating-point arithmetic and formatting.
- Report printing, JSON loading, the report's `main` and argparse are presentation and foreign-library code.
