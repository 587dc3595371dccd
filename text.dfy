/** String primitives shared by the search tool (Go) and the report script
    (Python), as specification functions over `seq<char>`:
    substring containment, character counting, splitting on a one-character
    separator from the left (Go's `strings.Split`) and from the right with a
    split limit (Python's `str.rsplit`), and joining. */
module Text {

  /** `sub` occurs in `s` as a contiguous run starting at index `i`. */
  ghost predicate OccursAt(s: string, sub: string, i: int) {
    0 <= i && i + |sub| <= |s| && s[i..i + |sub|] == sub
  }

  /** Substring test: Go's `strings.Contains(s, sub)` and Python's `sub in s`.
      `sub` is a prefix of `s` or occurs somewhere in its tail. */
  predicate Contains(s: string, sub: string)
    decreases |s|
  {
    sub <= s || (|s| > 0 && Contains(s[1..], sub))
  }

  /** Contains is exactly "occurs at some index"; the empty string occurs in
      every string. */
  lemma {:induction false} ContainsIffOccurs(s: string, sub: string)
    ensures Contains(s, sub) <==> exists i :: OccursAt(s, sub, i)
    ensures Contains(s, "")
    decreases |s|
  {
    assert OccursAt(s, "", 0);
    forall i | OccursAt(s, sub, i) && i == 0
      ensures sub <= s
    {
      assert s[..|sub|] == sub;
    }
    if sub <= s {
      assert s[..|sub|] == sub;
      assert OccursAt(s, sub, 0);
    }
    if |s| > 0 {
      ContainsIffOccurs(s[1..], sub);
      forall i | OccursAt(s, sub, i) && i > 0
        ensures OccursAt(s[1..], sub, i - 1)
      {
        assert s[1..][i - 1..i - 1 + |sub|] == s[i..i + |sub|];
      }
      forall i | OccursAt(s[1..], sub, i)
        ensures OccursAt(s, sub, i + 1)
      {
        assert s[1..][i..i + |sub|] == s[i + 1..i + 1 + |sub|];
      }
    }
  }

  /** A non-empty string whose first character is absent from `s` does not
      occur in `s`. */
  lemma ContainsNeedsFirstChar(s: string, sub: string)
    requires |sub| > 0 && sub[0] !in s
    ensures !Contains(s, sub)
  {
    ContainsIffOccurs(s, sub);
    assert forall i :: OccursAt(s, sub, i) ==> s[i] == sub[0];
  }

  /** Number of occurrences of `c` in `s`. */
  function Count(s: string, c: char): nat
    decreases |s|
  {
    if |s| == 0 then 0 else (if s[0] == c then 1 else 0) + Count(s[1..], c)
  }

  /** Counts add up over concatenation, and a count of zero means absence. */
  lemma {:induction false} CountConcat(a: string, b: string, c: char)
    ensures Count(a + b, c) == Count(a, c) + Count(b, c)
    ensures Count(a, c) == 0 <==> c !in a
    decreases |a|
  {
    if |a| == 0 {
      assert a + b == b;
    } else {
      assert (a + b)[0] == a[0];
      assert (a + b)[1..] == a[1..] + b;
      CountConcat(a[1..], b, c);
      assert c in a <==> a[0] == c || c in a[1..];
    }
  }

  /** Go's `strings.Split(s, string([sep]))`: the pieces of `s` between
      occurrences of `sep`. The empty string gives one empty piece. */
  function Split(s: string, sep: char): (pieces: seq<string>)
    ensures |pieces| >= 1
    decreases |s|
  {
    if |s| == 0 then [""]
    else
      var rest := Split(s[1..], sep);
      if s[0] == sep then [""] + rest
      else [[s[0]] + rest[0]] + rest[1..]
  }

  /** Go's `strings.Join(parts, string([sep]))` and Python's
      `sep.join(parts)`. */
  function Join(parts: seq<string>, sep: char): string
    decreases |parts|
  {
    if |parts| == 0 then ""
    else if |parts| == 1 then parts[0]
    else parts[0] + [sep] + Join(parts[1..], sep)
  }

  /** Splitting loses nothing: joining the pieces back gives `s`, there is
      one more piece than separators, and no piece holds the separator. */
  lemma {:induction false} JoinSplit(s: string, sep: char)
    ensures Join(Split(s, sep), sep) == s
    ensures |Split(s, sep)| == Count(s, sep) + 1
    ensures forall k :: 0 <= k < |Split(s, sep)| ==> sep !in Split(s, sep)[k]
    decreases |s|
  {
    if |s| > 0 {
      var rest := Split(s[1..], sep);
      JoinSplit(s[1..], sep);
      if s[0] == sep {
        assert ([""] + rest)[1..] == rest;
        assert s == [sep] + s[1..];
      } else {
        var first := [s[0]] + rest[0];
        assert sep !in first by {
          assert forall k :: 0 < k < |first| ==> first[k] == rest[0][k - 1];
        }
        if |rest| == 1 {
          assert s == [s[0]] + s[1..];
        } else {
          assert ([first] + rest[1..])[1..] == rest[1..];
          assert s == [s[0]] + s[1..];
        }
      }
    }
  }

  /** Splitting `w + t` where `w` holds no separator glues `w` onto the first
      piece of `t`. */
  lemma {:induction false} SplitPrefix(w: string, t: string, sep: char)
    requires sep !in w
    ensures Split(w + t, sep) == [w + Split(t, sep)[0]] + Split(t, sep)[1..]
    decreases |w|
  {
    if |w| == 0 {
      assert w + t == t;
      assert w + Split(t, sep)[0] == Split(t, sep)[0];
    } else {
      assert (w + t)[1..] == w[1..] + t;
      assert (w + t)[0] == w[0];
      SplitPrefix(w[1..], t, sep);
      assert [w[0]] + (w[1..] + Split(t, sep)[0]) == w + Split(t, sep)[0];
    }
  }

  /** Join has a left inverse: pieces free of the separator come back
      unchanged from Split. Together with JoinSplit this says Split and Join
      are mutually inverse. */
  lemma {:induction false} SplitJoin(parts: seq<string>, sep: char)
    requires |parts| >= 1
    requires forall k :: 0 <= k < |parts| ==> sep !in parts[k]
    ensures Split(Join(parts, sep), sep) == parts
    decreases |parts|
  {
    if |parts| == 1 {
      SplitPrefix(parts[0], "", sep);
      assert parts[0] + "" == parts[0];
    } else {
      var tail := Join(parts[1..], sep);
      SplitJoin(parts[1..], sep);
      SplitPrefix(parts[0], [sep] + tail, sep);
      assert ([sep] + tail)[1..] == tail;
      assert Split([sep] + tail, sep) == [""] + Split(tail, sep);
      assert parts[0] + [sep] + tail == parts[0] + ([sep] + tail);
      assert parts[0] + "" == parts[0];
      assert parts == [parts[0]] + parts[1..];
    }
  }

  /** Appending an empty piece adds one trailing separator. */
  lemma {:induction false} JoinSnocEmpty(parts: seq<string>, sep: char)
    requires |parts| >= 1
    ensures Join(parts + [""], sep) == Join(parts, sep) + [sep]
    decreases |parts|
  {
    if |parts| == 1 {
      assert (parts + [""])[1..] == [""];
    } else {
      assert (parts + [""])[1..] == parts[1..] + [""];
      JoinSnocEmpty(parts[1..], sep);
    }
  }

  /** A string that ends in the separator splits into the pieces of the
      string without it, followed by one empty piece. */
  lemma TrailingSeparator(s: string, sep: char)
    requires |s| > 0 && s[|s| - 1] == sep
    ensures Split(s, sep) == Split(s[..|s| - 1], sep) + [""]
  {
    var front := s[..|s| - 1];
    var ps := Split(front, sep);
    JoinSplit(front, sep);
    JoinSnocEmpty(ps, sep);
    assert s == front + [sep];
    SplitJoin(ps + [""], sep);
  }

  /** Index of the last occurrence of `c` in `s`. */
  function LastIndex(s: string, c: char): (i: nat)
    requires c in s
    ensures i < |s| && s[i] == c && c !in s[i + 1..]
    decreases |s|
  {
    if s[|s| - 1] == c then |s| - 1
    else
      assert c in s[..|s| - 1] by {
        var j :| 0 <= j < |s| && s[j] == c;
        assert s[..|s| - 1][j] == c;
      }
      var i := LastIndex(s[..|s| - 1], c);
      assert s[i + 1..] == s[..|s| - 1][i + 1..] + [s[|s| - 1]];
      i
  }

  /** Python's `s.rsplit(sep, maxsplit)` for a one-character `sep`: at most
      `maxsplit` splits, made at the rightmost separators. */
  function RSplit(s: string, sep: char, maxsplit: nat): (parts: seq<string>)
    decreases maxsplit
  {
    if maxsplit == 0 || sep !in s then [s]
    else
      var i := LastIndex(s, sep);
      RSplit(s[..i], sep, maxsplit - 1) + [s[i + 1..]]
  }

  /** Cutting `s` at its last separator leaves one separator fewer in front. */
  lemma CountBeforeLast(s: string, sep: char)
    requires sep in s
    ensures Count(s[..LastIndex(s, sep)], sep) == Count(s, sep) - 1
  {
    var i := LastIndex(s, sep);
    assert s == s[..i] + ([sep] + s[i + 1..]);
    CountConcat(s[..i], [sep] + s[i + 1..], sep);
    CountConcat([sep], s[i + 1..], sep);
    CountConcat(s[i + 1..], "", sep);
    assert Count([sep], sep) == 1;
  }

  /** rsplit loses nothing, and every piece but the first is free of the
      separator. */
  lemma {:induction false} JoinRSplit(s: string, sep: char, maxsplit: nat)
    ensures Join(RSplit(s, sep, maxsplit), sep) == s
    ensures forall k :: 1 <= k < |RSplit(s, sep, maxsplit)| ==> sep !in RSplit(s, sep, maxsplit)[k]
    decreases maxsplit
  {
    if maxsplit > 0 && sep in s {
      var i := LastIndex(s, sep);
      var front := RSplit(s[..i], sep, maxsplit - 1);
      JoinRSplit(s[..i], sep, maxsplit - 1);
      JoinSnoc(front, s[i + 1..], sep);
      assert s == s[..i] + [sep] + s[i + 1..];
    }
  }

  /** rsplit splits exactly min(separators, maxsplit) times. */
  lemma {:induction false} RSplitLength(s: string, sep: char, maxsplit: nat)
    ensures |RSplit(s, sep, maxsplit)| - 1
            == if Count(s, sep) < maxsplit then Count(s, sep) else maxsplit
    decreases maxsplit
  {
    CountConcat(s, "", sep);
    assert s + "" == s;
    if maxsplit > 0 && sep in s {
      RSplitLength(s[..LastIndex(s, sep)], sep, maxsplit - 1);
      CountBeforeLast(s, sep);
    }
  }

  /** Joining one more part appends a separator and that part. */
  lemma {:induction false} JoinSnoc(parts: seq<string>, last: string, sep: char)
    requires |parts| >= 1
    ensures Join(parts + [last], sep) == Join(parts, sep) + [sep] + last
    decreases |parts|
  {
    if |parts| == 1 {
      assert (parts + [last])[1..] == [last];
    } else {
      assert (parts + [last])[1..] == parts[1..] + [last];
      JoinSnoc(parts[1..], last, sep);
    }
  }
}
