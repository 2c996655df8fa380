/** The feature selection of the Hosseinzahde study: rank the columns by
    the importances a random forest assigns them and keep the ten most
    important ones. The forest is not modelled; its importances, one per
    column, are an input. */
module Hosseinzahde {
  import opened Wrappers
  import opened Seqs
  import opened Ranking
  import opened Frames

  /** How many columns the study keeps. */
  const TopCount: nat := 10

  /** A label of a table without repeated labels names exactly one
      position. */
  lemma LabelPosition(columns: seq<string>, a: nat, b: nat)
    requires Distinct(columns) && a < |columns| && b < |columns| && columns[a] == columns[b]
    ensures a == b
  {
  }

  /** `feature_importances(X, y)`: the labels of the `TopCount` columns with
      the largest importances, most important first. When labels are
      unique, the result lists each at most once, in non-increasing order of
      importance, and no column left out is more important than a column
      kept. Among equal importances the choice is the ranking's. */
  function FeatureImportances(columns: seq<string>, importances: seq<real>): (r: seq<string>)
    requires |columns| == |importances|
    ensures |r| == Min(TopCount, |columns|)
    ensures forall k :: 0 <= k < |r| ==> r[k] in columns
    ensures Distinct(columns) ==> Distinct(r)
    ensures Distinct(columns) ==>
      forall a, b, ca, cb ::
        0 <= a < b < |r| && 0 <= ca < |columns| && 0 <= cb < |columns|
        && columns[ca] == r[a] && columns[cb] == r[b]
        ==> importances[ca] >= importances[cb]
    ensures Distinct(columns) ==>
      forall c, b, cb ::
        0 <= c < |columns| && columns[c] !in r && 0 <= b < |r| && 0 <= cb < |columns|
        && columns[cb] == r[b]
        ==> importances[c] <= importances[cb]
  {
    var top := TopIndices(importances, TopCount);
    var r := Gather(columns, top);
    if Distinct(columns) then
      GatherDistinct(columns, top);
      assert forall k, c :: 0 <= k < |r| && 0 <= c < |columns| && columns[c] == r[k] ==> c == top[k] by {
        forall k, c | 0 <= k < |r| && 0 <= c < |columns| && columns[c] == r[k]
          ensures c == top[k]
        {
          LabelPosition(columns, c, top[k]);
        }
      }
      assert forall c :: 0 <= c < |columns| && columns[c] !in r ==> c !in top by {
        forall c | 0 <= c < |columns| && columns[c] !in r
          ensures c !in top
        {
          assert forall k :: 0 <= k < |top| ==> r[k] == columns[top[k]];
        }
      }
      r
    else
      r
  }

  /** `features.loc[:, feature_importances(features, target)]`. */
  function StudyFeatures(features: Frame, importances: seq<real>): Option<Frame>
    requires WellFormed(features) && |importances| == |features.columns|
  {
    SelectColumns(features, FeatureImportances(features.columns, importances))
  }

  /** The study keeps exactly the ranked columns, in ranked order, and every
      row with each of its cells under the same label. */
  lemma StudyKeepsTopColumns(features: Frame, importances: seq<real>)
    requires WellFormed(features) && |importances| == |features.columns|
    ensures StudyFeatures(features, importances).Some?
    ensures var f := StudyFeatures(features, importances).value;
      && f.columns == FeatureImportances(features.columns, importances)
      && |f.columns| == Min(TopCount, |features.columns|)
      && WellFormed(f)
      && Carries(features, f)
  {
  }
}
