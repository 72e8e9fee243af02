/** The log-line parser of the upload handler: each line is stripped, split on
    single spaces at most three times, and turned into a (timestamp, level,
    message) record when it yields four pieces; shorter lines are skipped. */
module LogParser {
  import opened Results
  import opened PyStr
  import Seqs

  /** One parsed line: the first two space-separated tokens rejoined as the
      timestamp, the third as the level, and the rest of the line as the message. */
  datatype Record = Record(timestamp: string, level: string, message: string)

  /** The line a record stands for: its fields rejoined with single spaces. */
  function Format(r: Record): string
  {
    r.timestamp + " " + r.level + " " + r.message
  }

  /** The records the parser can produce: a timestamp made of two space-free
      tokens (the first non-empty and not starting with whitespace), a
      space-free level, and a non-empty message not ending in whitespace. The
      time token and the level may be empty, and the message may hold spaces. */
  predicate WellFormed(r: Record)
  {
    && |r.timestamp| > 0 && !IsSpace(r.timestamp[0])
    && Count(r.timestamp, ' ') == 1
    && ' ' !in r.level
    && |r.message| > 0 && !IsSpace(r.message[|r.message| - 1])
  }

  /** Parse one line. The line is kept exactly when it still holds at least
      three spaces after stripping, and then the record rejoined with single
      spaces is the stripped line itself: no character of the message is lost. */
  function ParseLine(log: string): (r: Option<Record>)
    ensures r.None? <==> Count(Strip(log), ' ') < 3
    ensures r.Some? ==> WellFormed(r.value) && Format(r.value) == Strip(log)
  {
    var stripped := Strip(log);
    var parts := Split(stripped, ' ', 3);
    SplitCount(stripped, ' ', 3);
    if |parts| < 4 then None
    else
      var rec := Record(parts[0] + " " + parts[1], parts[2], parts[3]);
      JoinSplit(stripped, ' ', 3);
      FormatOfParts(stripped, parts, rec);
      Some(rec)
  }

  lemma Join4(a: string, b: string, c: string, d: string)
    ensures Join([a, b, c, d], ' ') == a + " " + b + " " + c + " " + d
  {
    assert Join([d], ' ') == d;
    assert [c, d][1..] == [d];
    assert Join([c, d], ' ') == c + " " + d;
    assert [b, c, d][1..] == [c, d];
    assert Join([b, c, d], ' ') == b + " " + (c + " " + d);
    assert [a, b, c, d][1..] == [b, c, d];
    assert Join([a, b, c, d], ' ') == a + " " + (b + " " + (c + " " + d));
  }

  /** Two space-free tokens joined by one space hold exactly one space. */
  lemma OneSpace(date: string, time: string)
    requires ' ' !in date && ' ' !in time
    ensures Count(date + " " + time, ' ') == 1
  {
    CountZero(date, ' ');
    CountZero(time, ' ');
    CountConcat(date, " " + time, ' ');
    CountConcat(" ", time, ' ');
    assert date + " " + time == date + (" " + time);
  }

  lemma FormatOfParts(stripped: string, parts: seq<string>, rec: Record)
    requires IsStripped(stripped)
    requires |parts| == 4 && Join(parts, ' ') == stripped
    requires ' ' !in parts[0] && ' ' !in parts[1] && ' ' !in parts[2]
    requires rec == Record(parts[0] + " " + parts[1], parts[2], parts[3])
    ensures WellFormed(rec) && Format(rec) == stripped
  {
    assert Format(rec) == stripped by {
      Join4(parts[0], parts[1], parts[2], parts[3]);
      assert parts == [parts[0], parts[1], parts[2], parts[3]];
    }
    PiecesWellFormed(stripped, rec, parts[0], parts[1]);
  }

  lemma PiecesWellFormed(stripped: string, rec: Record, date: string, time: string)
    requires IsStripped(stripped) && Format(rec) == stripped
    requires ' ' !in date && ' ' !in time && ' ' !in rec.level
    requires rec.timestamp == date + " " + time
    ensures WellFormed(rec)
  {
    OneSpace(date, time);
    MessageEnd(stripped, rec);
  }

  lemma MessageEnd(stripped: string, rec: Record)
    requires IsStripped(stripped) && Format(rec) == stripped
    ensures |rec.timestamp| > 0 && !IsSpace(rec.timestamp[0])
    ensures |rec.message| > 0 && !IsSpace(rec.message[|rec.message| - 1])
  {
    var prefix := rec.timestamp + " " + rec.level + " ";
    assert stripped == prefix + rec.message;
    if |rec.message| > 0 {
      assert stripped[|stripped| - 1] == rec.message[|rec.message| - 1];
    }
    if |rec.timestamp| > 0 {
      assert stripped[0] == rec.timestamp[0];
    }
  }

  /** The record's timestamp split back into its date and time tokens. */
  function DateTime(r: Record): (dt: (string, string))
    requires WellFormed(r)
    ensures r.timestamp == dt.0 + " " + dt.1
    ensures ' ' !in dt.0 && ' ' !in dt.1
  {
    var i := Find(r.timestamp, Equals(' '));
    assert i < |r.timestamp| by {
      CountZero(r.timestamp, ' ');
    }
    var date, time := r.timestamp[..i], r.timestamp[i + 1..];
    assert ' ' !in date;
    assert r.timestamp == date + " " + time;
    assert ' ' !in time by {
      CountZero(date, ' ');
      CountConcat(date, " " + time, ' ');
      CountConcat(" ", time, ' ');
      assert date + " " + time == date + (" " + time);
      CountZero(time, ' ');
    }
    (date, time)
  }

  /** Round trip in the other direction: every well-formed record is what
      parsing its own rejoined line gives back. With ParseLine's contract this
      makes ParseLine a bijection between stripped lines with at least three
      spaces and well-formed records. */
  lemma ParseFormat(r: Record)
    requires WellFormed(r)
    ensures ParseLine(Format(r)) == Some(r)
  {
    var (date, time) := DateTime(r);
    var parts := [date, time, r.level, r.message];
    var line := Format(r);
    Join4(date, time, r.level, r.message);
    SplitJoin(parts, ' ', 3);
    assert IsStripped(line) by {
      assert line[0] == r.timestamp[0];
      assert line[|line| - 1] == r.message[|r.message| - 1];
    }
    StrippedFixed(line);
  }

  /** The split is on single spaces, not on runs of whitespace: a second
      space after the date token yields an empty time token, so the time
      becomes the level and the level token moves into the message. */
  lemma DoubledSpaceShiftsFields(date: string, time: string, level: string, rest: string)
    requires |date| > 0 && !IsSpace(date[0]) && ' ' !in date
    requires ' ' !in time
    requires |rest| > 0 && !IsSpace(rest[|rest| - 1])
    ensures ParseLine(date + "  " + time + " " + level + " " + rest)
         == Some(Record(date + " ", time, level + " " + rest))
  {
    var r := Record(date + " ", time, level + " " + rest);
    OneSpace(date, "");
    assert date + " " + "" == r.timestamp;
    assert r.message[|r.message| - 1] == rest[|rest| - 1];
    assert WellFormed(r);
    assert Format(r) == date + "  " + time + " " + level + " " + rest;
    ParseFormat(r);
  }

  /** The whole parsing loop: one record per line that parses, in line order.
      There is at most one record per line, and every record is well formed. */
  function ParseLines(logs: seq<string>): (recs: seq<Record>)
    ensures |recs| <= |logs|
    ensures forall k :: 0 <= k < |recs| ==> WellFormed(recs[k])
  {
    ParsedWellFormed(logs);
    Seqs.FilterMap(ParseLine, logs)
  }

  /** Parsing keeps line order and drops only short lines: the records are the
      parses of the lines at strictly increasing positions, those positions are
      exactly the lines with at least three spaces after stripping, and each
      record rejoins to its stripped line. */
  lemma {:induction false} ParseLinesInOrder(logs: seq<string>)
    ensures var idx, recs := Seqs.KeptIndices(ParseLine, logs), ParseLines(logs);
      && |idx| == |recs|
      && Seqs.StrictlyIncreasing(idx)
      && (forall k :: 0 <= k < |idx| ==> idx[k] < |logs| && Format(recs[k]) == Strip(logs[idx[k]]))
      && (forall i :: 0 <= i < |logs| ==> (i in idx <==> Count(Strip(logs[i]), ' ') >= 3))
  {
    var idx, recs := Seqs.KeptIndices(ParseLine, logs), ParseLines(logs);
    Seqs.FilterMapSubsequence(ParseLine, logs);
    forall k | 0 <= k < |idx|
      ensures idx[k] < |logs| && Format(recs[k]) == Strip(logs[idx[k]])
    {
      assert ParseLine(logs[idx[k]]) == Some(recs[k]);
    }
    forall i | 0 <= i < |logs|
      ensures i in idx <==> Count(Strip(logs[i]), ' ') >= 3
    {
      if i in idx {
        var k :| 0 <= k < |idx| && idx[k] == i;
        assert ParseLine(logs[idx[k]]).Some?;
      }
    }
  }

  lemma ParsedWellFormed(logs: seq<string>)
    ensures forall k :: 0 <= k < |Seqs.FilterMap(ParseLine, logs)| ==> WellFormed(Seqs.FilterMap(ParseLine, logs)[k])
  {
    var idx, recs := Seqs.KeptIndices(ParseLine, logs), Seqs.FilterMap(ParseLine, logs);
    Seqs.FilterMapSubsequence(ParseLine, logs);
    forall k | 0 <= k < |recs|
      ensures WellFormed(recs[k])
    {
      assert ParseLine(logs[idx[k]]) == Some(recs[k]);
    }
  }

  /** The parsing loop as the handler writes it: strip, split, skip lines with
      fewer than four pieces, append the rest. Its result is ParseLines, so
      every record is well formed and there is at most one per line. */
  method ParseLog(logs: seq<string>) returns (data: seq<Record>)
    ensures data == ParseLines(logs)
    ensures |data| <= |logs|
    ensures forall k :: 0 <= k < |data| ==> WellFormed(data[k])
  {
    data := [];
    for i := 0 to |logs|
      invariant data == ParseLines(logs[..i])
    {
      assert logs[..i + 1][..i] == logs[..i];
      assert ParseLines(logs[..i + 1]) == ParseLines(logs[..i])
        + (match ParseLine(logs[i]) case Some(y) => [y] case None => []);
      var parts := Split(Strip(logs[i]), ' ', 3);
      if |parts| < 4 {
        continue;
      }
      var timestamp := parts[0] + " " + parts[1];
      var level := parts[2];
      var message := parts[3];
      data := data + [Record(timestamp, level, message)];
    }
    assert logs[..|logs|] == logs;
  }
}
