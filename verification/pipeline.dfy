/** The whole upload handler as one function: decoded text in, labelled table
    and anomalies view out, or the error the handler reports instead. The date
    parser and the outlier detector are parameters: `validTs` says whether the
    date parser accepts a timestamp string, `detect` maps the feature matrix to
    one integer per row. */
module Pipeline {
  import opened Results
  import Lines
  import opened LogParser
  import opened Features
  import opened Scoring
  import Seqs

  /** Why a run produces no table. Both come from exceptions raised inside
      the handler's try block and shown to the user as an error message. */
  datatype AnalysisError =
    | NoSamples                                   // the detector is fitted on an empty frame
    | LengthMismatch(rows: nat, predictions: nat) // the detector's output does not fit the frame

  /** What the handler displays: the labelled table and its anomalies view. */
  datatype Report = Report(table: seq<Scored>, anomalies: seq<Scored>)

  /** A line survives to the frame: it parses and its timestamp is accepted. */
  predicate Usable(line: string, validTs: string -> bool)
  {
    match ParseLine(line)
    case Some(r) => validTs(r.timestamp)
    case None => false
  }

  /** A row the handler can show: a well-formed parsed record whose timestamp
      the date parser accepts and whose derived columns agree with its message
      and level. */
  predicate Sound(row: Row, validTs: string -> bool)
  {
    FeaturesAgree(row) && WellFormed(row.ToRecord()) && validTs(row.timestamp)
  }

  /** The frame handed to the detector: parse every line, drop rows with an
      unparsable timestamp, derive the two feature columns. */
  function Frame(text: string, validTs: string -> bool): seq<Row>
  {
    EnrichAll(DropUnparsable(ParseLines(Lines.SplitLines(text)), validTs))
  }

  function Analyze(text: string, validTs: string -> bool, detect: seq<Feature> -> seq<int>): (res: Result<Report, AnalysisError>)
    ensures res == Failure(NoSamples) <==>
      var lines := Lines.SplitLines(text);
      forall i :: 0 <= i < |lines| ==> !Usable(lines[i], validTs)
    ensures res.Failure? && res.error.LengthMismatch? <==>
      var rows := Frame(text, validTs);
      |rows| > 0 && |detect(FeatureMatrix(rows))| != |rows|
    ensures res.Success? ==>
      var rows := Frame(text, validTs);
      var predictions := detect(FeatureMatrix(rows));
      && |res.value.table| == |rows| == |predictions|
      && (forall k :: 0 <= k < |rows| ==>
            && res.value.table[k].row == rows[k]
            && res.value.table[k].anomaly == predictions[k]
            && (res.value.table[k].verdict == Anomaly <==> predictions[k] == -1))
    ensures res.Success? ==>
      && res.value.anomalies == Anomalies(res.value.table)
      && |res.value.anomalies| == Occurrences(detect(FeatureMatrix(Frame(text, validTs))), -1)
      && forall k :: 0 <= k < |res.value.table| ==> Sound(res.value.table[k].row, validTs)
  {
    var rows := Frame(text, validTs);
    FrameEmpty(text, validTs);
    FrameRows(text, validTs);
    if |rows| == 0 then Failure(NoSamples)
    else
      var predictions := detect(FeatureMatrix(rows));
      if |predictions| != |rows| then Failure(LengthMismatch(|rows|, |predictions|))
      else
        var table := LabelRows(rows, predictions);
        AnomalyCount(rows, predictions);
        Success(Report(table, Anomalies(table)))
  }

  /** The frame is empty exactly when no line is usable. */
  lemma {:induction false} FrameEmpty(text: string, validTs: string -> bool)
    ensures |Frame(text, validTs)| == 0 <==>
      var lines := Lines.SplitLines(text);
      forall i :: 0 <= i < |lines| ==> !Usable(lines[i], validTs)
  {
    var lines := Lines.SplitLines(text);
    var idx := Seqs.KeptIndices(Seqs.Guard(ParseLine, TimestampParses(validTs)), lines);
    assert |idx| == |Frame(text, validTs)| by {
      FrameTrace(text, validTs);
    }
    assert forall i :: 0 <= i < |lines| ==> (i in idx <==> Usable(lines[i], validTs)) by {
      FrameTrace(text, validTs);
    }
    if |idx| > 0 {
      assert idx[0] < |lines| && idx[0] in idx by {
        FrameTrace(text, validTs);
      }
    }
  }

  /** Every row of the frame is a well-formed parsed record with an accepted
      timestamp and derived columns that agree with its message and level. */
  lemma {:induction false} FrameRows(text: string, validTs: string -> bool)
    ensures forall k :: 0 <= k < |Frame(text, validTs)| ==> Sound(Frame(text, validTs)[k], validTs)
  {
    var parsed := ParseLines(Lines.SplitLines(text));
    Seqs.FilterKeeps(TimestampParses(validTs), WellFormed, parsed);
  }

  lemma GuardIsUsable(line: string, validTs: string -> bool)
    ensures Seqs.Guard(ParseLine, TimestampParses(validTs))(line).Some? <==> Usable(line, validTs)
    ensures Usable(line, validTs) ==> Seqs.Guard(ParseLine, TimestampParses(validTs))(line) == ParseLine(line)
  {
  }

  /** End to end, nothing is reordered or invented: the frame's rows are the
      enriched parses of the input lines at strictly increasing positions,
      and those positions are exactly the usable lines. */
  lemma {:induction false} FrameTrace(text: string, validTs: string -> bool)
    ensures var lines, rows := Lines.SplitLines(text), Frame(text, validTs);
      var idx := Seqs.KeptIndices(Seqs.Guard(ParseLine, TimestampParses(validTs)), lines);
      && |idx| == |rows|
      && Seqs.StrictlyIncreasing(idx)
      && (forall k :: 0 <= k < |idx| ==>
            idx[k] < |lines| && ParseLine(lines[idx[k]]).Some? && rows[k] == Enrich(ParseLine(lines[idx[k]]).value))
      && (forall i :: 0 <= i < |lines| ==> (i in idx <==> Usable(lines[i], validTs)))
  {
    var lines := Lines.SplitLines(text);
    var g := Seqs.Guard(ParseLine, TimestampParses(validTs));
    var idx := Seqs.KeptIndices(g, lines);
    var kept := Seqs.FilterMap(g, lines);
    Seqs.FilterAfterFilterMap(ParseLine, TimestampParses(validTs), lines);
    assert DropUnparsable(ParseLines(lines), validTs) == kept;
    Seqs.FilterMapSubsequence(g, lines);
    forall k | 0 <= k < |idx|
      ensures idx[k] < |lines| && ParseLine(lines[idx[k]]).Some?
        && Frame(text, validTs)[k] == Enrich(ParseLine(lines[idx[k]]).value)
    {
      GuardIsUsable(lines[idx[k]], validTs);
    }
    forall i | 0 <= i < |lines|
      ensures i in idx <==> Usable(lines[i], validTs)
    {
      GuardIsUsable(lines[i], validTs);
      if i in idx {
        var k :| 0 <= k < |idx| && idx[k] == i;
      }
    }
  }
}
