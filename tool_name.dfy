/** `get_tool_name` of bench/report.py: the benchmark report names the tool a
    hyperfine command ran by a chain of substring tests on the command line,
    falling back to the command's first whitespace-separated word. */
module ToolName {
  import opened Text

  /** What `get_tool_name` returns, or the IndexError raised by
      `command.split()[0]` when the command has no word at all. */
  datatype Outcome = Name(name: string) | IndexError

  /** `str.lower` on one character; only ASCII letters are mapped. */
  function LowerChar(c: char): char {
    if 'A' <= c <= 'Z' then (c as int + ('a' as int - 'A' as int)) as char else c
  }

  /** `str.lower`: the string with every character lower-cased in place. */
  function Lower(s: string): (r: string)
    ensures |r| == |s|
    ensures forall k :: 0 <= k < |s| ==> r[k] == LowerChar(s[k])
    decreases |s|
  {
    if |s| == 0 then "" else [LowerChar(s[0])] + Lower(s[1..])
  }

  /** The characters `str.split()` without arguments treats as whitespace
      (those for which `str.isspace` holds). */
  predicate IsSpace(c: char) {
    ('\t' <= c <= '\r') || ('\U{1C}' <= c <= '\U{1F}') || c == ' '
    || c == '\U{85}' || c == '\U{A0}' || c == '\U{1680}'
    || ('\U{2000}' <= c <= '\U{200A}') || c == '\U{2028}' || c == '\U{2029}'
    || c == '\U{202F}' || c == '\U{205F}' || c == '\U{3000}'
  }

  /** The longest prefix of `s` free of whitespace. */
  function Word(s: string): (w: string)
    ensures w <= s
    ensures forall k :: 0 <= k < |w| ==> !IsSpace(w[k])
    ensures |w| == |s| || IsSpace(s[|w|])
    decreases |s|
  {
    if |s| == 0 || IsSpace(s[0]) then "" else [s[0]] + Word(s[1..])
  }

  /** `str.split()` without arguments: the maximal whitespace-free runs of
      `s`, in order; leading and trailing whitespace gives no empty word. */
  function Fields(s: string): seq<string>
    decreases |s|
  {
    if |s| == 0 then []
    else if IsSpace(s[0]) then Fields(s[1..])
    else
      var w := Word(s);
      [w] + Fields(s[|w|..])
  }

  /** `get_tool_name(command)`. */
  function GetToolName(command: string): Outcome {
    if MygrepRule(command) then Name("mygrep")
    else if RipgrepRule(command) then Name("ripgrep")
    else if GnuGrepRule(command) then Name("gnu-grep")
    else
      var fields := Fields(command);
      if |fields| == 0 then IndexError else Name(fields[0])
  }

  /** The words of `s` are non-empty and hold no whitespace. */
  lemma {:induction false} FieldsAreWords(s: string)
    ensures forall k :: 0 <= k < |Fields(s)| ==>
              |Fields(s)[k]| > 0 && forall m :: 0 <= m < |Fields(s)[k]| ==> !IsSpace(Fields(s)[k][m])
    decreases |s|
  {
    if |s| > 0 {
      if IsSpace(s[0]) {
        FieldsAreWords(s[1..]);
      } else {
        FieldsAreWords(s[|Word(s)|..]);
      }
    }
  }

  /** `s` has no word exactly when it is all whitespace (or empty). */
  lemma {:induction false} NoFieldsIffBlank(s: string)
    ensures Fields(s) == [] <==> forall k :: 0 <= k < |s| ==> IsSpace(s[k])
    decreases |s|
  {
    if |s| > 0 && IsSpace(s[0]) {
      NoFieldsIffBlank(s[1..]);
      assert forall k :: 1 <= k < |s| ==> s[1..][k - 1] == s[k];
    }
  }

  /** The first word of `s` is the whitespace-free run that starts at the
      first non-whitespace character. */
  lemma {:induction false} FirstField(s: string, i: nat)
    requires i < |s| && !IsSpace(s[i])
    requires forall k :: 0 <= k < i ==> IsSpace(s[k])
    ensures Fields(s) != [] && Fields(s)[0] == Word(s[i..])
    decreases i
  {
    if i > 0 {
      assert s[1..][i - 1..] == s[i..];
      FirstField(s[1..], i - 1);
    }
  }

  /** The first word of `s` occurs in `s`, so its lower-cased form occurs in
      the lower-cased command. */
  lemma FirstFieldOccurs(s: string)
    requires Fields(s) != []
    ensures Contains(Lower(s), Lower(Fields(s)[0]))
  {
    NoFieldsIffBlank(s);
    var first := FirstNonSpace(s);
    FirstField(s, first);
    var w := Word(s[first..]);
    WordOccurs(s, first);
    LowerKeepsOccurrence(s, w, first);
    ContainsIffOccurs(Lower(s), Lower(w));
  }

  /** The word starting at `i` occurs in `s` at `i`. */
  lemma WordOccurs(s: string, i: nat)
    requires i < |s|
    ensures OccursAt(s, Word(s[i..]), i)
  {
    var w := Word(s[i..]);
    assert s[i..][..|w|] == w;
    assert s[i..i + |w|] == s[i..][..|w|];
  }

  /** Lower-casing commutes with taking a substring. */
  lemma LowerKeepsOccurrence(s: string, t: string, i: int)
    requires OccursAt(s, t, i)
    ensures OccursAt(Lower(s), Lower(t), i)
  {
    var ls, lt := Lower(s), Lower(t);
    forall k | 0 <= k < |t| ensures ls[i..i + |t|][k] == lt[k] {
      assert s[i..i + |t|][k] == t[k];
    }
  }

  /** The index of the first non-whitespace character of `s`. */
  function FirstNonSpace(s: string): (i: nat)
    requires exists k :: 0 <= k < |s| && !IsSpace(s[k])
    ensures i < |s| && !IsSpace(s[i])
    ensures forall k :: 0 <= k < i ==> IsSpace(s[k])
    decreases |s|
  {
    if !IsSpace(s[0]) then 0
    else
      assert exists k :: 0 <= k < |s[1..]| && !IsSpace(s[1..][k]) by {
        var k :| 0 <= k < |s| && !IsSpace(s[k]);
        assert s[1..][k - 1] == s[k];
      }
      1 + FirstNonSpace(s[1..])
  }

  /** The three named rules of the chain, in the order they are tried. */
  predicate MygrepRule(command: string) {
    Contains(Lower(command), "mygrep")
  }

  predicate RipgrepRule(command: string) {
    Contains(Lower(command), "ripgrep") || Contains(command, "rg ") || Contains(command, "rg'")
  }

  predicate GnuGrepRule(command: string) {
    Contains(Lower(command), "ggrep") || Contains(Lower(command), "gnu-grep") || Contains(command, "/grep")
  }

  /** When no rule applies and the command has a word, the fallback names
      the first word, which then occurs in the lower-cased command. */
  lemma FallbackNameOccurs(command: string)
    requires !MygrepRule(command) && !RipgrepRule(command) && !GnuGrepRule(command)
    requires Fields(command) != []
    ensures GetToolName(command) == Name(Fields(command)[0])
    ensures Contains(Lower(command), Lower(Fields(command)[0]))
  {
    FirstFieldOccurs(command);
  }

  /** "mygrep" is reported exactly when the lower-cased command mentions it:
      the rule is tried first, and no later rule nor the fallback word can
      produce that name. */
  lemma MygrepIff(command: string)
    ensures GetToolName(command) == Name("mygrep") <==> MygrepRule(command)
  {
    assert Lower("mygrep") == "mygrep";
    if !MygrepRule(command) && !RipgrepRule(command) && !GnuGrepRule(command) && Fields(command) != [] {
      FallbackNameOccurs(command);
    }
  }

  /** "ripgrep" is reported exactly when the mygrep rule fails and the
      command mentions ripgrep in any case, or "rg " or "rg'" verbatim. */
  lemma RipgrepIff(command: string)
    ensures GetToolName(command) == Name("ripgrep") <==> !MygrepRule(command) && RipgrepRule(command)
  {
    assert Lower("ripgrep") == "ripgrep";
    if !MygrepRule(command) && !RipgrepRule(command) && !GnuGrepRule(command) && Fields(command) != [] {
      FallbackNameOccurs(command);
    }
  }

  /** "gnu-grep" is reported exactly when the first two rules fail and the
      command mentions ggrep or gnu-grep in any case, or "/grep" verbatim. */
  lemma GnuGrepIff(command: string)
    ensures GetToolName(command) == Name("gnu-grep")
            <==> !MygrepRule(command) && !RipgrepRule(command) && GnuGrepRule(command)
  {
    assert Lower("gnu-grep") == "gnu-grep";
    if !MygrepRule(command) && !RipgrepRule(command) && !GnuGrepRule(command) && Fields(command) != [] {
      FallbackNameOccurs(command);
    }
  }

  /** When no rule applies, the name is the whitespace-free run starting at
      the first non-whitespace character. */
  lemma FallbackIsFirstWord(command: string, i: nat)
    requires !MygrepRule(command) && !RipgrepRule(command) && !GnuGrepRule(command)
    requires i < |command| && !IsSpace(command[i])
    requires forall k :: 0 <= k < i ==> IsSpace(command[k])
    ensures GetToolName(command) == Name(Word(command[i..]))
  {
    FirstField(command, i);
  }

  /** A blank command has no occurrence of a string that starts with a
      non-whitespace character, lower-cased or not. */
  lemma BlankContainsNoWord(command: string, sub: string)
    requires forall k :: 0 <= k < |command| ==> IsSpace(command[k])
    requires |sub| > 0 && !IsSpace(sub[0])
    ensures !Contains(command, sub) && !Contains(Lower(command), sub)
  {
    ContainsNeedsFirstChar(command, sub);
    assert forall k :: 0 <= k < |command| ==> Lower(command)[k] == command[k];
    ContainsNeedsFirstChar(Lower(command), sub);
  }

  /** `command.split()[0]` raises IndexError exactly when the command is
      empty or all whitespace; every rule needs a non-whitespace character. */
  lemma IndexErrorIffBlank(command: string)
    ensures GetToolName(command) == IndexError
            <==> forall k :: 0 <= k < |command| ==> IsSpace(command[k])
  {
    NoFieldsIffBlank(command);
    if forall k :: 0 <= k < |command| ==> IsSpace(command[k]) {
      BlankContainsNoWord(command, "mygrep");
      BlankContainsNoWord(command, "ripgrep");
      BlankContainsNoWord(command, "rg ");
      BlankContainsNoWord(command, "rg'");
      BlankContainsNoWord(command, "ggrep");
      BlankContainsNoWord(command, "gnu-grep");
      BlankContainsNoWord(command, "/grep");
    }
  }
}
