/** Turning the outlier detector's per-row output into labels, and the view
    of the rows labelled as anomalies. The detector itself is not modelled:
    its output arrives as one integer per row. */
module Scoring {
  import opened Results
  import opened Features
  import Seqs

  datatype Label = Anomaly | Normal

  /** The label of one detector output: -1 marks an outlier, any other value
      (the detector answers 1 for inliers) is normal. */
  function LabelOf(prediction: int): Label
  {
    if prediction == -1 then Anomaly else Normal
  }

  /** A row of the final table: the frame row, the detector's raw output
      (column `anomaly`) and the label derived from it (column `is_anomaly`). */
  datatype Scored = Scored(row: Row, anomaly: int, verdict: Label)

  /** Attach the detector output and its label to each row, position by position. */
  function LabelRows(rows: seq<Row>, predictions: seq<int>): (scored: seq<Scored>)
    requires |predictions| == |rows|
    ensures |scored| == |rows|
    ensures forall i :: 0 <= i < |rows| ==> scored[i].row == rows[i] && scored[i].anomaly == predictions[i]
    ensures forall i :: 0 <= i < |rows| ==> (scored[i].verdict == Anomaly <==> predictions[i] == -1)
  {
    seq(|rows|, i requires 0 <= i < |rows| => Scored(rows[i], predictions[i], LabelOf(predictions[i])))
  }

  predicate IsAnomaly(s: Scored)
  {
    s.verdict == Anomaly
  }

  predicate IsNormal(s: Scored)
  {
    s.verdict == Normal
  }

  /** The anomalies view: the scored rows whose label is Anomaly. */
  function Anomalies(scored: seq<Scored>): (view: seq<Scored>)
    ensures |view| <= |scored|
    ensures forall k :: 0 <= k < |view| ==> view[k].verdict == Anomaly
  {
    Seqs.Filter(IsAnomaly, scored)
  }

  /** The scored rows labelled Normal. */
  function Normals(scored: seq<Scored>): (view: seq<Scored>)
    ensures forall k :: 0 <= k < |view| ==> view[k].verdict == Normal
  {
    Seqs.Filter(IsNormal, scored)
  }

  /** Labelling is total: every row is an anomaly or normal, never both, so
      the two views together account for every row. */
  lemma LabelCounts(scored: seq<Scored>)
    ensures |Anomalies(scored)| + |Normals(scored)| == |scored|
  {
    Seqs.FilterComplement(IsAnomaly, IsNormal, scored);
  }

  /** Number of entries of `xs` equal to `v`. */
  function Occurrences(xs: seq<int>, v: int): nat
  {
    if |xs| == 0 then 0
    else Occurrences(xs[..|xs| - 1], v) + (if xs[|xs| - 1] == v then 1 else 0)
  }

  /** The anomalies view has one row per -1 the detector returned. */
  lemma {:induction false} AnomalyCount(rows: seq<Row>, predictions: seq<int>)
    requires |predictions| == |rows|
    ensures |Anomalies(LabelRows(rows, predictions))| == Occurrences(predictions, -1)
  {
    var n := |rows|;
    if n > 0 {
      var scored := LabelRows(rows, predictions);
      var init := LabelRows(rows[..n - 1], predictions[..n - 1]);
      assert scored[..n - 1] == init;
      AnomalyCount(rows[..n - 1], predictions[..n - 1]);
      assert IsAnomaly(scored[n - 1]) <==> predictions[n - 1] == -1;
    }
  }

  /** The anomalies view is exactly the anomalous rows, in table order: it is
      the subsequence of the table at strictly increasing positions, those
      positions are exactly the rows labelled Anomaly, and a row is in the view
      exactly when it is in the table with that label. */
  lemma {:induction false} AnomaliesView(scored: seq<Scored>)
    ensures var view, idx := Anomalies(scored), Seqs.KeptIndices(Seqs.Keep(IsAnomaly), scored);
      && |idx| == |view|
      && Seqs.StrictlyIncreasing(idx)
      && (forall k :: 0 <= k < |idx| ==> idx[k] < |scored| && scored[idx[k]] == view[k])
      && (forall i :: 0 <= i < |scored| ==> (i in idx <==> scored[i].verdict == Anomaly))
    ensures forall x :: x in Anomalies(scored) <==> x in scored && x.verdict == Anomaly
  {
    var view, idx := Anomalies(scored), Seqs.KeptIndices(Seqs.Keep(IsAnomaly), scored);
    Seqs.FilterSubsequence(IsAnomaly, scored);
    forall k | 0 <= k < |idx|
      ensures idx[k] < |scored| && scored[idx[k]] == view[k]
    {
      assert Seqs.Keep(IsAnomaly)(scored[idx[k]]) == Some(view[k]);
    }
    forall i | 0 <= i < |scored|
      ensures i in idx <==> scored[i].verdict == Anomaly
    {
      if i in idx {
        var k :| 0 <= k < |idx| && idx[k] == i;
        assert Seqs.Keep(IsAnomaly)(scored[idx[k]]).Some?;
      } else {
        assert !Seqs.Keep(IsAnomaly)(scored[i]).Some?;
      }
    }
    forall x
      ensures x in Anomalies(scored) <==> x in scored && x.verdict == Anomaly
    {
      Seqs.FilterMembership(IsAnomaly, scored, x);
    }
  }
}
