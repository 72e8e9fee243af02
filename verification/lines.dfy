/** Python `str.splitlines()` without `keepends`: the decoded upload is cut into
    lines at every line boundary, "\r\n" counting as a single boundary, and no
    empty line is produced for a final terminator. */
module Lines {
  import opened PyStr

  /** The characters `str.splitlines` treats as line boundaries:
      \n \v \f \r, \x1c \x1d \x1e, \x85, and the Unicode line and paragraph
      separators. */
  predicate IsLineBoundary(c: char)
  {
    || ('\n' <= c <= '\r')
    || ('\U{1C}' <= c <= '\U{1E}')
    || c == '\U{85}' || c == '\U{2028}' || c == '\U{2029}'
  }

  predicate NoBoundary(line: string)
  {
    forall k :: 0 <= k < |line| ==> !IsLineBoundary(line[k])
  }

  /** Length of the line terminator at `s[i]`: two for "\r\n", one otherwise. */
  function TerminatorLength(s: string, i: nat): nat
    requires i < |s|
  {
    if s[i] == '\r' && i + 1 < |s| && s[i + 1] == '\n' then 2 else 1
  }

  function SplitLines(s: string): (lines: seq<string>)
    ensures |lines| <= |s|
    decreases |s|
  {
    if |s| == 0 then []
    else
      var i := Find(s, IsLineBoundary);
      if i == |s| then [s]
      else [s[..i]] + SplitLines(s[i + TerminatorLength(s, i)..])
  }

  /** No line produced contains a line-boundary character. */
  lemma {:induction false} SplitLinesNoBoundary(s: string)
    ensures forall k :: 0 <= k < |SplitLines(s)| ==> NoBoundary(SplitLines(s)[k])
    decreases |s|
  {
    if |s| > 0 {
      var i := Find(s, IsLineBoundary);
      if i < |s| {
        var rest := s[i + TerminatorLength(s, i)..];
        SplitLinesNoBoundary(rest);
        assert SplitLines(s) == [s[..i]] + SplitLines(rest);
      }
    }
  }

  /** The lines written out with a "\n" after each one, as a log file is usually stored. */
  function Terminated(lines: seq<string>): string
  {
    if |lines| == 0 then "" else lines[0] + "\n" + Terminated(lines[1..])
  }

  lemma FindBoundaryAfter(line: string, rest: string)
    requires NoBoundary(line)
    requires |rest| > 0 && IsLineBoundary(rest[0])
    ensures Find(line + rest, IsLineBoundary) == |line|
  {
    var s := line + rest;
    assert s[|line|] == rest[0];
    assert forall k :: 0 <= k < |line| ==> s[k] == line[k];
  }

  /** One line followed by "\n" or by "\r\n" comes out as that line, and
      splitting carries on after the terminator. */
  lemma SplitLinesStep(line: string, terminator: string, rest: string)
    requires NoBoundary(line)
    requires terminator == "\n" || terminator == "\r\n"
    ensures SplitLines(line + terminator + rest) == [line] + SplitLines(rest)
  {
    var s := line + terminator + rest;
    assert s == line + (terminator + rest);
    FindBoundaryAfter(line, terminator + rest);
    var i := |line|;
    assert s[..i] == line;
    assert TerminatorLength(s, i) == |terminator|;
    assert s[i + |terminator|..] == rest;
  }

  lemma TerminatedUnfold(lines: seq<string>, rest: string)
    requires |lines| > 0
    ensures Terminated(lines) + rest == lines[0] + "\n" + (Terminated(lines[1..]) + rest)
  {
  }

  lemma SplitLinesCons(line: string, after: string, tail: seq<string>, restLines: seq<string>)
    requires NoBoundary(line)
    requires SplitLines(after) == tail + restLines
    ensures SplitLines(line + "\n" + after) == [line] + tail + restLines
  {
    SplitLinesStep(line, "\n", after);
  }

  /** Round trip: lines without boundary characters, each written with a
      "\n" terminator and followed by any further text, are read back as
      the same lines followed by the lines of that text. */
  lemma {:induction false} SplitLinesTerminated(lines: seq<string>, rest: string)
    requires forall k :: 0 <= k < |lines| ==> NoBoundary(lines[k])
    ensures SplitLines(Terminated(lines) + rest) == lines + SplitLines(rest)
  {
    if |lines| == 0 {
      assert Terminated(lines) + rest == rest;
      assert lines + SplitLines(rest) == SplitLines(rest);
    } else {
      var tail := lines[1..];
      assert forall k :: 0 <= k < |tail| ==> NoBoundary(tail[k]) by {
        forall k | 0 <= k < |tail| ensures NoBoundary(tail[k]) {
          assert tail[k] == lines[k + 1];
        }
      }
      SplitLinesTerminated(tail, rest);
      TerminatedUnfold(lines, rest);
      SplitLinesCons(lines[0], Terminated(tail) + rest, tail, SplitLines(rest));
      assert [lines[0]] + tail == lines;
    }
  }

  /** A final line with no terminator still counts as a line. */
  lemma SplitLinesLast(line: string)
    requires |line| > 0 && NoBoundary(line)
    ensures SplitLines(line) == [line]
  {
    assert Find(line, IsLineBoundary) == |line|;
  }
}
