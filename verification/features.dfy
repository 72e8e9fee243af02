/** The frame built from the parsed records: rows whose timestamp the date
    parser rejects are dropped, then each row gains `message_length` and
    `level_score`, the two columns handed to the outlier detector. */
module Features {
  import opened Results
  import opened LogParser
  import Seqs

  /** The level vocabulary of the score table, from least to most severe. */
  datatype Severity = Info | Warning | Error | Critical
  {
    /** The exact-case token that names the level in a log line. */
    function Name(): string
    {
      match this
      case Info => "INFO"
      case Warning => "WARNING"
      case Error => "ERROR"
      case Critical => "CRITICAL"
    }

    /** The score the table gives the level. */
    function Rank(): int
    {
      match this
      case Info => 1
      case Warning => 2
      case Error => 3
      case Critical => 4
    }
  }

  /** The score table of `level_score`. */
  const LevelScores: map<string, int> := map["INFO" := 1, "WARNING" := 2, "ERROR" := 3, "CRITICAL" := 4]

  /** `level_score`: an exact-case lookup in the table, with 0 for every level
      the table lacks (the missing values are filled with 0). Lower-case or
      mixed-case spellings are not in the table and score 0. */
  function LevelScore(level: string): (score: int)
    ensures 0 <= score <= 4
    ensures score == 0 <==> forall sev: Severity :: sev.Name() != level
  {
    if level in LevelScores then
      KeysAreNames(level);
      LevelScores[level]
    else
      NamesInTable();
      0
  }

  lemma KeysAreNames(level: string)
    requires level in LevelScores
    ensures exists sev: Severity :: sev.Name() == level
  {
    if level == "INFO" {
      assert Info.Name() == level;
    } else if level == "WARNING" {
      assert Warning.Name() == level;
    } else if level == "ERROR" {
      assert Error.Name() == level;
    } else {
      assert Critical.Name() == level;
    }
  }

  lemma NamesInTable()
    ensures forall sev: Severity :: sev.Name() in LevelScores
  {
    forall sev: Severity
      ensures sev.Name() in LevelScores
    {
      match sev
      case Info =>
      case Warning =>
      case Error =>
      case Critical =>
    }
  }

  /** A level scores the rank of a vocabulary entry exactly when it is that
      entry's exact-case name. */
  lemma LevelScoreExact(level: string, sev: Severity)
    ensures LevelScore(level) == sev.Rank() <==> level == sev.Name()
  {
    if level == sev.Name() {
      assert level in LevelScores;
    }
  }

  /** A parsed record as a row of the frame, with its two derived columns. */
  datatype Row = Row(timestamp: string, level: string, message: string, messageLength: nat, levelScore: int)
  {
    /** The parsed columns alone. */
    function ToRecord(): Record
    {
      Record(timestamp, level, message)
    }
  }

  /** The derived columns are what recomputing them from the row's own
      message and level gives. */
  predicate FeaturesAgree(row: Row)
  {
    row.messageLength == |row.message| && row.levelScore == LevelScore(row.level)
  }

  /** Add `message_length` (the character count of the message) and `level_score`. */
  function Enrich(r: Record): (row: Row)
    ensures row.ToRecord() == r
    ensures FeaturesAgree(row)
  {
    Row(r.timestamp, r.level, r.message, |r.message|, LevelScore(r.level))
  }

  /** The derived columns carry no information of their own: a row is an
      enriched record exactly when recomputing its columns reproduces them. */
  lemma RecomputeFeatures(row: Row)
    ensures FeaturesAgree(row) <==> Enrich(row.ToRecord()) == row
  {
  }

  function EnrichAll(recs: seq<Record>): (rows: seq<Row>)
    ensures |rows| == |recs|
    ensures forall i :: 0 <= i < |recs| ==> rows[i] == Enrich(recs[i])
  {
    seq(|recs|, i requires 0 <= i < |recs| => Enrich(recs[i]))
  }

  /** The test the coerced timestamp column applies to a record. */
  function TimestampParses(validTs: string -> bool): Record -> bool
  {
    (r: Record) => validTs(r.timestamp)
  }

  /** Convert the timestamp column with the date parser, turning failures into
      missing values, and drop the rows left missing. */
  function DropUnparsable(recs: seq<Record>, validTs: string -> bool): (kept: seq<Record>)
    ensures |kept| <= |recs|
    ensures forall k :: 0 <= k < |kept| ==> validTs(kept[k].timestamp)
  {
    Seqs.Filter(TimestampParses(validTs), recs)
  }

  /** Dropping rows never reorders the others: the kept records sit at strictly
      increasing positions of the input, and those positions are exactly the
      records whose timestamp the parser accepts. */
  lemma {:induction false} DropUnparsableInOrder(recs: seq<Record>, validTs: string -> bool)
    ensures var kept, idx := DropUnparsable(recs, validTs), Seqs.KeptIndices(Seqs.Keep(TimestampParses(validTs)), recs);
      && |idx| == |kept|
      && Seqs.StrictlyIncreasing(idx)
      && (forall k :: 0 <= k < |idx| ==> idx[k] < |recs| && recs[idx[k]] == kept[k])
      && (forall i :: 0 <= i < |recs| ==> (i in idx <==> validTs(recs[i].timestamp)))
  {
    var p := TimestampParses(validTs);
    var kept, idx := DropUnparsable(recs, validTs), Seqs.KeptIndices(Seqs.Keep(p), recs);
    Seqs.FilterSubsequence(p, recs);
    forall k | 0 <= k < |idx|
      ensures idx[k] < |recs| && recs[idx[k]] == kept[k]
    {
      assert Seqs.Keep(p)(recs[idx[k]]) == Some(kept[k]);
    }
    forall i | 0 <= i < |recs|
      ensures i in idx <==> validTs(recs[i].timestamp)
    {
      if i in idx {
        var k :| 0 <= k < |idx| && idx[k] == i;
        assert Seqs.Keep(p)(recs[idx[k]]).Some?;
      } else {
        assert !Seqs.Keep(p)(recs[i]).Some?;
      }
    }
  }

  /** One row of the detector's input, in its column order: `level_score`, then `message_length`. */
  datatype Feature = Feature(levelScore: int, messageLength: nat)

  function FeatureMatrix(rows: seq<Row>): (m: seq<Feature>)
    ensures |m| == |rows|
    ensures forall i :: 0 <= i < |rows| ==> m[i] == Feature(rows[i].levelScore, rows[i].messageLength)
  {
    seq(|rows|, i requires 0 <= i < |rows| => Feature(rows[i].levelScore, rows[i].messageLength))
  }

  /** The detector sees only level and message: the feature vector of each
      record is its level's score and its message's length, whatever its
      timestamp. */
  lemma FeaturesOfRecords(recs: seq<Record>)
    ensures var m := FeatureMatrix(EnrichAll(recs));
      && |m| == |recs|
      && forall i :: 0 <= i < |recs| ==> m[i] == Feature(LevelScore(recs[i].level), |recs[i].message|)
  {
  }
}
