# Log anomaly detector — core model

This project models in Dafny the core of a small log anomaly detector. It
does three things:

- It parses an uploaded text log into `(timestamp, level, message)` records.
- It derives two numeric features per record: `message_length` and `level_score`.
- It labels every record as an anomaly or as normal, using an unsupervised
  outlier detector fitted on those two features. It then shows the table and
  the view of the anomalous rows.

The modules follow the handler's stages:

- `PyStr` (pystr.dfy) holds the Python string operations that the parser
  relies on: `str.strip()` with CPython's whitespace set, and
  `str.split(sep, maxsplit)` for a one-character separator.
- `Lines` (lines.dfy) holds `str.splitlines()`. Its boundaries are
  `\n \v \f \r \x1c \x1d \x1e \x85 \u2028 \u2029`, and `\r\n` counts as one
  terminator.
- `Seqs` (seqs.dfy) holds order-preserving filters. These are the shape of
  both the appending parse loop and a boolean-mask row selection. It also
  states the subsequence property: kept items sit at strictly increasing
  positions, and those positions are exactly the selected ones.
- `LogParser` (parser.dfy) holds the parsing loop.
- `Features` (features.dfy) holds the timestamp coercion and row drop, and
  the two feature columns.
- `Scoring` (scoring.dfy) holds the labels and the anomalies view.
- `Pipeline` (pipeline.dfy) is the whole handler as one function. Its input
  is the decoded text. Its output is a report, or the error the handler
  would show.
- `Results` (results.dfy) holds `Option` and `Result`.

Two collaborators are parameters, because their code is not part of this
model:

- The date parser is `validTs: string -> bool`. It says whether
  `pd.to_datetime(..., errors="coerce")` gives a non-missing value for a
  timestamp string.
- The outlier detector is `detect: seq<Feature> -> seq<int>`. It stands for
  `IsolationForest(...).fit_predict`, applied to the `[level_score,
  message_length]` matrix.

The handler catches every exception and shows a message instead of the
results. Two of those exceptions come from the modelled core, and the model
returns them as errors:

- `NoSamples`: the detector is fitted on an empty frame.
- `LengthMismatch`: the detector's output does not fit the frame.

## Behaviour of the code

The model follows `app.py` as written, including these behaviours:

- **Split rule.** A line is stripped and then cut with `split(" ", 3)`, which
  splits on single spaces. Two adjacent spaces give an empty token, so the
  fields shift (`LogParser.DoubledSpaceShiftsFields`). A tab is not a
  separator.
- **Level case.** The level is looked up as written, without upper-casing,
  so `info` scores 0.
- **Unknown levels.** A record whose level is not one of the four names is
  kept, with `level_score` 0 (`fillna(0)`).
- **One layout.** Only timestamp, level and message are recognised: two
  tokens of timestamp, one of level, and the rest of the line as the message.
- **Decoding.** The upload is decoded as strict UTF-8. A bad byte raises, and
  the handler shows the error.
- **Empty frame.** When no row survives, `fit_predict` raises on the empty
  frame and the handler shows the error. The model returns
  `Failure(NoSamples)`.

## Model

| member | source | states |
|---|---|---|
| PyStr.Strip | app.py:20 | the stripped line has no whitespace at either end and is no longer than the line |
| PyStr.StripShape | app.py:20 | strip removes only whitespace and only at the ends: the result sits in the line between an all-whitespace prefix and an all-whitespace suffix |
| PyStr.StripPadded | app.py:20 | stripping any whitespace padding around a stripped string gives that string back, so strip is determined by the unpadded text |
| PyStr.StripIdempotent | app.py:20 | stripping twice is stripping once |
| PyStr.Split | app.py:20 | `split(" ", 3)` gives between one and four pieces, and every piece but the last is free of spaces |
| PyStr.JoinSplit | app.py:20 | joining the pieces with the separator restores the line exactly, so the parse loses no characters |
| PyStr.SplitCount | app.py:20-21 | the number of pieces is one more than the smaller of maxsplit and the separator count, so `len(parts) < 4` holds exactly when the stripped line has fewer than three spaces |
| PyStr.SplitJoin | app.py:20 | splitting a join gives the pieces back when every piece but the last is free of the separator, and the last is too unless maxsplit cuts were made |
| Lines.SplitLines | app.py:15 | there are no more lines than characters |
| Lines.SplitLinesNoBoundary | app.py:15 | no line contains a line-boundary character |
| Lines.SplitLinesStep | app.py:15 | a line followed by "\n" or "\r\n" comes out as that one line, and splitting continues after the terminator |
| Lines.SplitLinesTerminated | app.py:15 | round trip: boundary-free lines, each written with a "\n", are split back into exactly those lines |
| Lines.SplitLinesLast | app.py:15 | a final line with no terminator is still a line |
| Seqs.FilterMapSubsequence | app.py:18-26 | the appending loop keeps order: its output is the image of the input at strictly increasing positions, and every position that yields a value is among them |
| Seqs.FilterSubsequence | app.py:31 | a row selection is the subsequence at strictly increasing positions, and those positions are exactly the rows satisfying the test |
| Seqs.FilterKeeps | app.py:31 | a property every row has before the drop still holds of every row after it |
| Seqs.FilterMembership | app.py:52 | an item is selected exactly when it occurs in the input and satisfies the test |
| Seqs.FilterComplement | app.py:45 | two complementary selections split the rows between them |
| Seqs.FilterAfterFilterMap | app.py:18-31 | dropping rows after parsing equals parsing with the drop test folded in, so each final row traces back to one input line |
| LogParser.ParseLine | app.py:19-26 | a line is skipped exactly when its stripped form holds fewer than three spaces; otherwise the record is well formed, and its fields rejoined with single spaces are the stripped line |
| LogParser.DateTime | app.py:23 | a parsed timestamp is a date token and a time token joined by one space, both free of spaces |
| LogParser.ParseFormat | app.py:20-26 | every well-formed record is what parsing its own rejoined line gives, so, with ParseLine's contract, ParseLine is a bijection between stripped lines with at least three spaces and well-formed records |
| LogParser.DoubledSpaceShiftsFields | app.py:20-25 | a doubled space after the date yields an empty time token: the time becomes the level and the level moves into the message |
| LogParser.ParseLinesInOrder | app.py:18-26 | records come from lines at strictly increasing positions; those positions are exactly the lines with at least three spaces after stripping; each record rejoins to its stripped line |
| LogParser.ParseLines | app.py:18-26 | the parse of a log has at most one record per line, and every record is well formed |
| LogParser.ParseLog | app.py:18-26 | the loop as written computes the parsed records: at most one per line, every one well formed |
| Features.LevelScore | app.py:33 | the score lies in 0..4, and it is 0 exactly when the level is not one of the four exact-case names |
| Features.LevelScoreExact | app.py:33 | a level scores a vocabulary entry's rank exactly when it is that entry's exact-case name |
| Features.Enrich | app.py:32-33 | the row keeps the record's fields, and its derived columns agree with its message and level |
| Features.RecomputeFeatures | app.py:32-33 | a row is an enriched record exactly when recomputing its derived columns reproduces them |
| Features.EnrichAll | app.py:32-33 | one row per record, in order, each the enriched record |
| Features.DropUnparsable | app.py:30-31 | no rows are added, and every kept record has a timestamp the date parser accepts |
| Features.DropUnparsableInOrder | app.py:30-31 | kept records sit at strictly increasing positions, and those positions are exactly the records whose timestamp the date parser accepts |
| Features.FeatureMatrix | app.py:44 | one feature row per frame row, holding its level score and message length, in that column order |
| Features.FeaturesOfRecords | app.py:32-44 | the detector's input for each record is its level's score and its message's length, whatever its timestamp |
| Scoring.LabelRows | app.py:44-45 | each row keeps its data and its detector output, and is labelled Anomaly exactly when the output is -1 |
| Scoring.Anomalies | app.py:52 | the anomalies view is no larger than the table, and every row in it is labelled Anomaly |
| Scoring.Normals | app.py:45 | every row of the normal view is labelled Normal |
| Scoring.LabelCounts | app.py:45 | every row is an anomaly or normal, never both, so the two views account for every row |
| Scoring.AnomalyCount | app.py:44-52 | the anomalies view has one row per -1 the detector returned |
| Scoring.AnomaliesView | app.py:52 | the anomalies view is the table's anomalous rows, in table order, at exactly the positions labelled Anomaly; a row is in the view exactly when it is in the table with that label |
| Pipeline.Analyze | app.py:12-58 | the run fails with NoSamples exactly when no line parses with an accepted timestamp, and with LengthMismatch exactly when the frame is non-empty and the detector's output length differs from it; on success the table has one row per frame row, in order, each carrying the detector's output at its position and labelled Anomaly exactly when that output is -1; the anomalies view is the table's anomalous rows, one per -1; every table row is well formed with an accepted timestamp and consistent features |
| Pipeline.FrameEmpty | app.py:15-31 | the frame is empty exactly when no line both parses and has an accepted timestamp |
| Pipeline.FrameRows | app.py:18-33 | every frame row is a well-formed parsed record with an accepted timestamp and consistent derived columns |
| Pipeline.FrameTrace | app.py:15-33 | end to end, the frame's rows are the enriched parses of the input lines at strictly increasing positions, and those positions are exactly the usable lines |

## Left out

- The Streamlit page (title, uploader, preview tables, slider, download
  button) is presentation only. It is not modelled.
- UTF-8 decoding is not modelled. The model starts from decoded text, and a
  decoding failure is one of the exceptions the handler turns into a message.
- `pd.to_datetime` is not modelled. It is the parameter `validTs`, decided per
  timestamp. Pandas infers one format for the whole column, so a string it
  accepts alone may be rejected next to others. The model does not capture
  that. The converted datetime value is not kept either: rows keep the
  timestamp string.
- `IsolationForest` is not modelled. It is the parameter `detect`. The
  contamination rate, the fixed seed and the reproducibility they give are
  properties of that library. The model states nothing about which rows the
  detector flags.
- Features.LevelScore: `Series.map` gives an integer column when every level
  is in the table. When some level is missing, `map` puts NaN there and the
  column becomes a float column, which `fillna(0)` keeps. The model always
  uses the integers 0..4, which have the same values.
- The `head(10)` preview and the CSV export only display or serialise the
  table. They are not modelled.
- The handler catches every exception. Only the two that arise in the
  modelled core are modelled: fitting on an empty frame, and a detector
  output of the wrong length. The rest (decoding, library failures) are
  outside the model.
