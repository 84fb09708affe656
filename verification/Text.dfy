/** Text cut into pieces at a separator character. A piece may be empty.
    The recursion is on the last character, the way the parsers' loops advance. */
module Text {
  function Split(s: string, sep: char): (parts: seq<string>)
    ensures |parts| >= 1
  {
    if s == "" then [""]
    else
      var before, c := Split(s[..|s| - 1], sep), s[|s| - 1];
      if c == sep then before + [""] else Grow(before, [c])
  }

  /** Appends text to the last piece. */
  function Grow(parts: seq<string>, more: string): (grown: seq<string>)
    requires |parts| >= 1
    ensures |grown| == |parts|
  {
    parts[..|parts| - 1] + [parts[|parts| - 1] + more]
  }

  function Join(parts: seq<string>, sep: char): string
  {
    if |parts| == 0 then ""
    else if |parts| == 1 then parts[0]
    else Join(parts[..|parts| - 1], sep) + [sep] + parts[|parts| - 1]
  }

  ghost predicate Free(parts: seq<string>, sep: char) {
    forall k | 0 <= k < |parts| :: sep !in parts[k]
  }

  /** A prefix of the text fixes all pieces but its last one, which can still grow. */
  ghost predicate Continues(early: seq<string>, late: seq<string>)
    requires |early| >= 1
  {
    && |early| <= |late|
    && late[..|early| - 1] == early[..|early| - 1]
    && early[|early| - 1] <= late[|early| - 1]
  }

  lemma {:induction false} SplitPrefix(s: string, sep: char, i: nat)
    requires i <= |s|
    ensures Continues(Split(s[..i], sep), Split(s, sep))
    decreases |s|
  {
    if i == |s| {
      assert s[..i] == s;
    } else {
      SplitPrefix(s[..|s| - 1], sep, i);
      assert s[..|s| - 1][..i] == s[..i];
    }
  }

  lemma SplitSnoc(s: string, c: char, sep: char)
    ensures Split(s + [c], sep) == if c == sep then Split(s, sep) + [""] else Grow(Split(s, sep), [c])
  {
    assert (s + [c])[..|s|] == s;
  }

  /** Text without the separator only extends the last piece. */
  lemma {:induction false} SplitSuffix(a: string, b: string, sep: char)
    requires sep !in b
    ensures Split(a + b, sep) == Grow(Split(a, sep), b)
    decreases |b|
  {
    hide Split;
    var p := Split(a, sep);
    if b == "" {
      assert a + b == a;
      assert p[|p| - 1] + b == p[|p| - 1];
    } else {
      var b', c := b[..|b| - 1], b[|b| - 1];
      SplitSuffix(a, b', sep);
      SplitSnoc(a + b', c, sep);
      assert a + b == (a + b') + [c];
      assert p[|p| - 1] + b == (p[|p| - 1] + b') + [c];
    }
  }

  /** One step of a loop over the characters of s. */
  lemma SplitAt(s: string, i: nat, sep: char)
    requires i < |s|
    ensures Split(s[..i + 1], sep) ==
            if s[i] == sep then Split(s[..i], sep) + [""] else Grow(Split(s[..i], sep), [s[i]])
  {
    hide Split;
    assert s[..i + 1] == s[..i] + [s[i]];
    SplitSnoc(s[..i], s[i], sep);
  }

  lemma {:induction false} SplitAppend(a: string, b: string, sep: char)
    ensures Split(a + [sep] + b, sep) == Split(a, sep) + Split(b, sep)
    decreases |b|
  {
    if b == "" {
      SplitSnoc(a, sep, sep);
      assert a + [sep] + b == a + [sep];
    } else {
      var b', c := b[..|b| - 1], b[|b| - 1];
      SplitAppend(a, b', sep);
      SplitAppendStep(a, b', c, sep);
      assert b == b' + [c];
    }
  }

  lemma SplitAppendStep(a: string, b: string, c: char, sep: char)
    requires Split(a + [sep] + b, sep) == Split(a, sep) + Split(b, sep)
    ensures Split(a + [sep] + (b + [c]), sep) == Split(a, sep) + Split(b + [c], sep)
  {
    hide Split;
    assert a + [sep] + (b + [c]) == a + [sep] + b + [c];
    SplitSnoc(a + [sep] + b, c, sep);
    SplitSnoc(b, c, sep);
    GrowAppend(Split(a, sep), Split(b, sep), [c]);
    assert (Split(a, sep) + Split(b, sep)) + [""] == Split(a, sep) + (Split(b, sep) + [""]);
  }

  lemma GrowAppend(a: seq<string>, b: seq<string>, more: string)
    requires |b| >= 1
    ensures Grow(a + b, more) == a + Grow(b, more)
  {
    assert (a + b)[..|a + b| - 1] == a + b[..|b| - 1];
  }

  lemma SplitMore(a: string, b: string, sep: char)
    requires sep in b
    ensures |Split(a + b, sep)| > |Split(a, sep)|
  {
    hide Split;
    var j :| 0 <= j < |b| && b[j] == sep;
    assert a + b == (a + b[..j]) + [sep] + b[j + 1..];
    SplitAppend(a + b[..j], b[j + 1..], sep);
    SplitPrefix(a + b[..j], sep, |a|);
    assert (a + b[..j])[..|a|] == a;
  }

  /** The character at i goes into the piece that s[..i] left open, and that piece
      is not the last one if a separator follows. */
  lemma SplitThrough(s: string, i: nat, sep: char)
    requires i < |s| && s[i] != sep
    ensures var early, late := Split(s[..i], sep), Split(s, sep);
            var n := |early| - 1;
            && n < |late| && late[..n] == early[..n]
            && early[n] + [s[i]] <= late[n]
            && (sep in s[i..] ==> n < |late| - 1)
            && (sep !in s[i..] ==> late == Grow(early, s[i..]))
  {
    hide Split;
    SplitAt(s, i, sep);
    SplitPrefix(s, sep, i + 1);
    assert s == s[..i] + s[i..];
    if sep in s[i..] {
      SplitMore(s[..i], s[i..], sep);
    } else {
      SplitSuffix(s[..i], s[i..], sep);
    }
  }

  lemma SplitFree(s: string, sep: char)
    requires sep !in s
    ensures Split(s, sep) == [s]
  {
    SplitSuffix("", s, sep);
    assert "" + s == s;
  }

  /** Join and Split undo each other. */
  lemma {:induction false} SplitJoin(parts: seq<string>, sep: char)
    requires |parts| >= 1 && Free(parts, sep)
    ensures Split(Join(parts, sep), sep) == parts
    decreases |parts|
  {
    hide Split;
    var n := |parts|;
    if n == 1 {
      SplitFree(parts[0], sep);
    } else {
      SplitJoin(parts[..n - 1], sep);
      SplitAppend(Join(parts[..n - 1], sep), parts[n - 1], sep);
      SplitFree(parts[n - 1], sep);
    }
  }

  lemma {:induction false} JoinSplit(s: string, sep: char)
    ensures Free(Split(s, sep), sep)
    ensures Join(Split(s, sep), sep) == s
    decreases |s|
  {
    if s != "" {
      var before, c := Split(s[..|s| - 1], sep), s[|s| - 1];
      JoinSplit(s[..|s| - 1], sep);
      if c == sep {
        assert (before + [""])[..|before|] == before;
      } else {
        JoinGrow(before, [c], sep);
      }
    }
  }

  lemma JoinGrow(parts: seq<string>, more: string, sep: char)
    requires |parts| >= 1
    ensures Join(Grow(parts, more), sep) == Join(parts, sep) + more
  {
    assert Grow(parts, more)[..|parts| - 1] == parts[..|parts| - 1];
  }
}
