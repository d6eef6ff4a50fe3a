/** `find_matches` of src/lib.rs: a grep-like filter that writes every line of
    `content` containing `pattern` to a writer, each followed by a newline. */
module LineFilter {
  import opened Wrappers
  import opened Strings

  /** `pattern` occurs in `s` starting at index `i`. */
  predicate OccursAt(s: string, pattern: string, i: nat)
  {
    i + |pattern| <= |s| && s[i..i + |pattern|] == pattern
  }

  /** Rust's `str::contains` for a string pattern. */
  predicate Contains(s: string, pattern: string)
    ensures |pattern| == 0 ==> Contains(s, pattern)
    ensures Contains(s, pattern) ==> |pattern| <= |s|
    decreases |s|
  {
    pattern <= s || (s != [] && Contains(s[1..], pattern))
  }

  /** An occurrence in the tail is an occurrence one place later in the whole. */
  lemma OccursInTail(s: string, pattern: string, i: nat)
    requires s != []
    ensures OccursAt(s[1..], pattern, i) <==> OccursAt(s, pattern, i + 1)
  {
    if i + 1 + |pattern| <= |s| {
      assert s[1..][i..i + |pattern|] == s[i + 1..i + 1 + |pattern|];
    }
  }

  /** `Contains` holds exactly when the pattern occurs at some index. */
  lemma {:induction false} ContainsIffOccurs(s: string, pattern: string)
    ensures Contains(s, pattern) <==> exists i: nat :: OccursAt(s, pattern, i)
    decreases |s|
  {
    if pattern <= s {
      assert OccursAt(s, pattern, 0);
    } else if s == [] {
      assert |pattern| > 0;
    } else {
      ContainsIffOccurs(s[1..], pattern);
      if i: nat :| OccursAt(s[1..], pattern, i) {
        OccursInTail(s, pattern, i);
      }
      if i: nat :| OccursAt(s, pattern, i) {
        assert i != 0;
        OccursInTail(s, pattern, i - 1);
      }
    }
  }

  /** Drops one trailing carriage return, turning a "\r\n" ending into "\n". */
  function StripCr(line: string): string
  {
    if |line| > 0 && line[|line| - 1] == '\r' then line[..|line| - 1] else line
  }

  /** Rust's `str::lines`: split at each '\n', dropping a '\r' just before it;
      the last line needs no terminator (a lone trailing '\r' stays on it), and
      no empty line follows a final '\n'. */
  function Lines(s: string): (ls: seq<string>)
    ensures s == [] <==> ls == []
    ensures |ls| <= |s|
    decreases |s|
  {
    if s == [] then []
    else
      var i := FirstIndexOf(s, '\n');
      if i == |s| then [s]
      else [StripCr(s[..i])] + Lines(s[i + 1..])
  }

  /** No line holds a '\n': each one stops at the next line ending. */
  lemma {:induction false} LinesHaveNoNewline(s: string)
    ensures forall k :: 0 <= k < |Lines(s)| ==> '\n' !in Lines(s)[k]
    decreases |s|
  {
    if s != [] {
      var i := FirstIndexOf(s, '\n');
      if i < |s| {
        LinesHaveNoNewline(s[i + 1..]);
        var line := s[..i];
        assert '\n' !in line by {
          forall j | 0 <= j < |line| ensures line[j] != '\n' { assert line[j] == s[j]; }
        }
        assert '\n' !in StripCr(line);
      }
    }
  }

  /** The lines of `ls` that contain `pattern`, in their order. */
  function Matching(ls: seq<string>, pattern: string): (ms: seq<string>)
    ensures |ms| <= |ls|
    ensures forall k :: 0 <= k < |ms| ==> Contains(ms[k], pattern)
  {
    if ls == [] then []
    else (if Contains(ls[0], pattern) then [ls[0]] else []) + Matching(ls[1..], pattern)
  }

  /** Each line followed by one '\n', concatenated: what `writeln!` produces. */
  function Terminated(ls: seq<string>): string
  {
    if ls == [] then [] else ls[0] + "\n" + Terminated(ls[1..])
  }

  /** Filtering a concatenation filters each part and keeps them in order. */
  lemma {:induction false} MatchingAppend(a: seq<string>, b: seq<string>, pattern: string)
    ensures Matching(a + b, pattern) == Matching(a, pattern) + Matching(b, pattern)
  {
    if a == [] {
      assert a + b == b;
    } else {
      assert (a + b)[1..] == a[1..] + b;
      MatchingAppend(a[1..], b, pattern);
    }
  }

  /** Terminating a concatenation terminates each part. */
  lemma {:induction false} TerminatedAppend(a: seq<string>, b: seq<string>)
    ensures Terminated(a + b) == Terminated(a) + Terminated(b)
  {
    if a == [] {
      assert a + b == b;
    } else {
      assert (a + b)[1..] == a[1..] + b;
      TerminatedAppend(a[1..], b);
    }
  }

  /** The matches are exactly the lines at a strictly increasing list of
      indices of `ls`, and that list holds every index whose line matches:
      nothing unmatched is written, nothing matched is dropped, and the order
      of `ls` is kept. */
  lemma {:induction false} MatchingSelectsInOrder(ls: seq<string>, pattern: string) returns (idx: seq<nat>)
    ensures |idx| == |Matching(ls, pattern)|
    ensures forall k :: 0 <= k < |idx| ==> idx[k] < |ls| && Matching(ls, pattern)[k] == ls[idx[k]]
    ensures forall k :: 0 <= k < |idx| ==> Contains(ls[idx[k]], pattern)
    ensures forall k :: 0 < k < |idx| ==> idx[k - 1] < idx[k]
    ensures forall j :: 0 <= j < |ls| && Contains(ls[j], pattern) ==> j in idx
    decreases |ls|
  {
    if ls == [] {
      return [];
    }
    var n := |ls| - 1;
    var front, last := ls[..n], ls[n];
    assert ls == front + [last];
    var rest := MatchingSelectsInOrder(front, pattern);
    MatchingAppend(front, [last], pattern);
    if Contains(last, pattern) {
      assert Matching([last], pattern) == [last];
      idx := rest + [n];
    } else {
      assert Matching([last], pattern) == [];
      idx := rest;
    }
    forall j | 0 <= j < |ls| && Contains(ls[j], pattern) ensures j in idx {
      if j < n {
        assert front[j] == ls[j];
      }
    }
  }

  /** With the empty pattern every line is selected. */
  lemma {:induction false} EmptyPatternSelectsAll(ls: seq<string>)
    ensures Matching(ls, "") == ls
  {
    if ls != [] {
      EmptyPatternSelectsAll(ls[1..]);
    }
  }

  /** The first '\n' of `line + "\n" + rest` is the one just after `line`. */
  lemma NewlineAfterLine(line: string, rest: string)
    requires '\n' !in line
    ensures FirstIndexOf(line + "\n" + rest, '\n') == |line|
  {
    var s := line + "\n" + rest;
    assert forall j :: 0 <= j < |line| ==> s[j] == line[j];
    assert s[|line|] == '\n';
  }

  /** Splitting written output back into lines recovers them when no line
      holds a '\n' or ends in '\r': each line is followed by exactly one '\n'. */
  lemma {:induction false} LinesOfTerminated(ls: seq<string>)
    requires forall k :: 0 <= k < |ls| ==> '\n' !in ls[k]
    requires forall k :: 0 <= k < |ls| ==> StripCr(ls[k]) == ls[k]
    ensures Lines(Terminated(ls)) == ls
  {
    if ls != [] {
      var rest := Terminated(ls[1..]);
      var s := ls[0] + "\n" + rest;
      NewlineAfterLine(ls[0], rest);
      assert s[..|ls[0]|] == ls[0];
      assert s[|ls[0]| + 1..] == rest;
      LinesOfTerminated(ls[1..]);
    }
  }

  /** Splitting a text without '\r' at its first '\n': the first line is
      what precedes it, unchanged, and the rest is split the same way. */
  lemma {:induction false} LinesAtNewline(s: string, i: nat)
    requires '\r' !in s && i == FirstIndexOf(s, '\n') && i < |s|
    ensures Lines(s) == [s[..i]] + Lines(s[i + 1..])
  {
    assert Lines(s) == [StripCr(s[..i])] + Lines(s[i + 1..]);
    var line := s[..i];
    assert '\r' !in line by {
      assert forall c :: c in line ==> c in s;
    }
    assert StripCr(line) == line by {
      if |line| > 0 {
        assert line[|line| - 1] in line;
      }
    }
  }

  /** The text is its first line, the '\n', and the rest. */
  lemma CutAtNewline(s: string, i: nat)
    requires i < |s| && s[i] == '\n'
    ensures s == s[..i] + "\n" + s[i + 1..]
  {
    assert s[i..] == [s[i]] + s[i + 1..];
    assert s == s[..i] + s[i..];
  }

  /** A suffix of a text without '\r' has none either. */
  lemma NoCrInSuffix(s: string, k: nat)
    requires '\r' !in s && k <= |s|
    ensures '\r' !in s[k..]
  {
  }

  /** The text `Terminated(Lines(s))` must equal: `s` with a '\n' added when
      its last line had none. */
  function WithFinalNewline(s: string): string
  {
    if s == [] || s[|s| - 1] == '\n' then s else s + "\n"
  }

  lemma WithFinalNewlineCons(line: string, t: string)
    ensures line + "\n" + WithFinalNewline(t) == WithFinalNewline(line + "\n" + t)
  {
    var s := line + "\n" + t;
    if t != [] {
      assert s[|s| - 1] == t[|t| - 1];
      if t[|t| - 1] != '\n' {
        assert line + "\n" + (t + "\n") == s + "\n";
      }
    }
  }

  /** Without carriage returns, writing every line back reproduces the text,
      with a '\n' added when its last line had none. */
  lemma {:induction false} TerminatedOfLines(s: string)
    requires '\r' !in s
    ensures Terminated(Lines(s)) == WithFinalNewline(s)
    decreases |s|
  {
    if s == [] {
      return;
    }
    var i := FirstIndexOf(s, '\n');
    if i == |s| {
      assert s[|s| - 1] != '\n';
      return;
    }
    var line, t := s[..i], s[i + 1..];
    LinesAtNewline(s, i);
    CutAtNewline(s, i);
    NoCrInSuffix(s, i + 1);
    TerminatedOfLines(t);
    assert ([line] + Lines(t))[1..] == Lines(t);
    WithFinalNewlineCons(line, t);
  }

  /** The `writer` argument: everything written so far. */
  class Writer {
    var written: string

    constructor ()
      ensures written == []
    {
      written := [];
    }

    /** `writeln!(writer, "{}", line)`; a failing write panics in the source
        and is not modelled. */
    method WriteLine(line: string)
      modifies this
      ensures written == old(written) + (line + "\n")
    {
      written := written + (line + "\n");
    }
  }

  /** What one more line adds to the output: the line and a '\n' when it
      matches, nothing otherwise. */
  lemma WrittenForNextLine(ls: seq<string>, i: nat, pattern: string)
    requires i < |ls|
    ensures Terminated(Matching(ls[..i + 1], pattern)) ==
            Terminated(Matching(ls[..i], pattern)) + (if Contains(ls[i], pattern) then ls[i] + "\n" else [])
  {
    assert ls[..i + 1] == ls[..i] + [ls[i]];
    MatchingAppend(ls[..i], [ls[i]], pattern);
    var single := Matching([ls[i]], pattern);
    assert single == if Contains(ls[i], pattern) then [ls[i]] else [];
    TerminatedAppend(Matching(ls[..i], pattern), single);
    if Contains(ls[i], pattern) {
      assert Terminated(single) == ls[i] + "\n" + Terminated([]);
    }
  }

  /** `find_matches`: appends every matching line of `content`, terminated,
      and always returns `Ok(())`. */
  method FindMatches(content: string, pattern: string, writer: Writer) returns (r: Result<(), string>)
    modifies writer
    ensures r == Ok(())
    ensures writer.written == old(writer.written) + Terminated(Matching(Lines(content), pattern))
  {
    var lines := Lines(content);
    ghost var before := writer.written;
    for i := 0 to |lines|
      invariant writer.written == before + Terminated(Matching(lines[..i], pattern))
    {
      ghost var done := Terminated(Matching(lines[..i], pattern));
      WrittenForNextLine(lines, i, pattern);
      if Contains(lines[i], pattern) {
        writer.WriteLine(lines[i]);
        assert before + done + (lines[i] + "\n") == before + (done + (lines[i] + "\n"));
      } else {
        assert done + [] == done;
      }
    }
    assert lines[..|lines|] == lines;
    r := Ok(());
  }
}
