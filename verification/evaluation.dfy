/** The evaluation machinery both studies share: the out-of-fold details
    table built by `evaluate`, the in-sample details table and the grid of
    regularisation constants searched over.

    The validator's splitting and the pipeline are not modelled: the folds
    are an input, and a fitted pipeline's positive-class probability is a
    function of the training rows it was fitted on and the row it scores. */
module Evaluation {
  import opened Wrappers
  import opened Seqs

  /** One split of the validator: the rows fitted on and the rows held out. */
  datatype Fold = Fold(train: seq<nat>, test: seq<nat>)

  /** One row of a details table, columns `fold`, `label` (here `trueLabel`,
      `label` being a Dafny keyword) and `prediction`. */
  datatype PredictionRow = PredictionRow(fold: int, trueLabel: int, prediction: real)

  /** The row `np.zeros((n, 3))` leaves where no fold writes. */
  const Unwritten := PredictionRow(0, 0, 0.0)

  /** `predict(train, i)`: the positive-class probability for row `i` of a
      pipeline fitted on the rows `train`. */
  type Predictor = (seq<nat>, nat) -> real

  /** Every held-out index addresses one of `n` rows. */
  predicate TestsInRange(folds: seq<Fold>, n: nat) {
    forall k :: 0 <= k < |folds| ==> InRange(folds[k].test, n)
  }

  /** Some fold holds row `i` out. */
  predicate HeldOut(folds: seq<Fold>, i: nat) {
    exists k :: 0 <= k < |folds| && i in folds[k].test
  }

  /** The held-out sets partition the rows `0 .. n-1`: each row is held
      out by some fold and by no two folds. */
  predicate Partitions(folds: seq<Fold>, n: nat) {
    && TestsInRange(folds, n)
    && (forall i :: 0 <= i < n ==> HeldOut(folds, i))
    && (forall k1, k2, i :: 0 <= k1 < k2 < |folds| && i in folds[k1].test ==> i !in folds[k2].test)
  }

  /** The last fold holding row `i` out, if any. */
  function LastFoldOf(folds: seq<Fold>, i: nat): (r: Option<nat>)
    ensures r.None? <==> forall k :: 0 <= k < |folds| ==> i !in folds[k].test
    ensures r.Some? ==> r.value < |folds| && i in folds[r.value].test
    ensures r.Some? ==> forall k :: r.value < k < |folds| ==> i !in folds[k].test
  {
    if |folds| == 0 then None
    else if i in folds[|folds| - 1].test then Some(|folds| - 1)
    else LastFoldOf(folds[..|folds| - 1], i)
  }

  /** What the details table holds for row `i` once every fold has run: the
      write of the last fold holding it out, later folds overwriting earlier
      ones, or the zero row when no fold holds it out. */
  function Outcome(folds: seq<Fold>, y: seq<int>, predict: Predictor, i: nat): PredictionRow
    requires i < |y|
  {
    match LastFoldOf(folds, i)
    case None => Unwritten
    case Some(k) => PredictionRow(k, y[i], predict(folds[k].train, i))
  }

  /** The details table `evaluate` returns, row by row. */
  function Details(folds: seq<Fold>, y: seq<int>, predict: Predictor): seq<PredictionRow> {
    seq(|y|, i requires 0 <= i < |y| => Outcome(folds, y, predict, i))
  }

  /** `evaluate(pipeline, X, y, validator)` over `n == len(X)` rows: starting
      from a table of zero rows, fold `k` writes `(k, y[i], p)` into every
      row `i` it holds out, `p` being the prediction of the pipeline fitted
      on that fold's training rows. */
  method Evaluate(n: nat, y: seq<int>, folds: seq<Fold>, predict: Predictor)
    returns (preds: seq<PredictionRow>)
    requires |y| == n && TestsInRange(folds, n)
    ensures |preds| == n
    ensures preds == Details(folds, y, predict)
    ensures forall i :: 0 <= i < n && (forall k :: 0 <= k < |folds| ==> i !in folds[k].test)
              ==> preds[i] == Unwritten
    ensures forall i, k :: 0 <= i < n && 0 <= k < |folds| && i in folds[k].test
              ==> 0 <= preds[i].fold < |folds| && k <= preds[i].fold && preds[i].trueLabel == y[i]
  {
    var table := new PredictionRow[n](_ => Unwritten);
    var k := 0;
    while k < |folds|
      invariant 0 <= k <= |folds|
      invariant forall i :: 0 <= i < n ==> table[i] == Outcome(folds[..k], y, predict, i)
    {
      var fold := folds[k];
      var j := 0;
      while j < |fold.test|
        invariant 0 <= j <= |fold.test|
        invariant forall i :: 0 <= i < n ==>
          table[i] == if i in fold.test[..j] then PredictionRow(k, y[i], predict(fold.train, i))
                      else Outcome(folds[..k], y, predict, i)
      {
        var i := fold.test[j];
        table[i] := PredictionRow(k, y[i], predict(fold.train, i));
        assert fold.test[..j + 1] == fold.test[..j] + [i];
        j := j + 1;
      }
      assert fold.test[..j] == fold.test;
      assert folds[..k + 1][..k] == folds[..k];
      k := k + 1;
    }
    assert folds[..k] == folds;
    preds := table[..];
  }

  /** When the held-out sets partition the rows, row `i` of the details
      table carries the fold that holds `i` out, `y[i]`, and the prediction
      of the pipeline fitted without `i`'s fold; every fold that holds out a
      row shows up in the fold column. */
  lemma {:induction false} PartitionedDetails(folds: seq<Fold>, y: seq<int>, predict: Predictor)
    requires Partitions(folds, |y|)
    ensures forall i, k :: 0 <= i < |y| && 0 <= k < |folds| && i in folds[k].test ==>
      Details(folds, y, predict)[i] == PredictionRow(k, y[i], predict(folds[k].train, i))
    ensures forall k :: 0 <= k < |folds| && |folds[k].test| > 0 ==>
      exists i :: 0 <= i < |y| && Details(folds, y, predict)[i].fold == k
  {
    var d := Details(folds, y, predict);
    forall i, k | 0 <= i < |y| && 0 <= k < |folds| && i in folds[k].test
      ensures d[i] == PredictionRow(k, y[i], predict(folds[k].train, i))
    {
      var last := LastFoldOf(folds, i);
      assert last.Some?;
      assert !(k < last.value) && !(last.value < k);
    }
    forall k | 0 <= k < |folds| && |folds[k].test| > 0
      ensures exists i :: 0 <= i < |y| && d[i].fold == k
    {
      var i := folds[k].test[0];
      assert i in folds[k].test;
      assert d[i].fold == k;
    }
  }

  /** The in-sample details table: fold 0 throughout, the target as label
      and the scores of the pipeline fitted on every row. */
  function InSampleDetails(y: seq<int>, scores: seq<real>): seq<PredictionRow>
    requires |scores| == |y|
  {
    seq(|y|, i requires 0 <= i < |y| => PredictionRow(0, y[i], scores[i]))
  }

  /** In-sample evaluation is the evaluation with one fold that fits on
      every row and holds every row out: one row per target entry, fold
      column 0 and label column equal to the target. */
  lemma {:induction false} InSampleIsOneFold(y: seq<int>, predict: Predictor)
    ensures var all := Range(|y|);
      var d := InSampleDetails(y, seq(|y|, i requires 0 <= i < |y| => predict(all, i)));
      && d == Details([Fold(all, all)], y, predict)
      && |d| == |y|
      && forall i :: 0 <= i < |y| ==> d[i].fold == 0 && d[i].trueLabel == y[i]
  {
    var all := Range(|y|);
    var folds := [Fold(all, all)];
    var d := InSampleDetails(y, seq(|y|, i requires 0 <= i < |y| => predict(all, i)));
    forall i | 0 <= i < |y|
      ensures d[i] == Details(folds, y, predict)[i]
    {
      assert all[i] == i;
      assert LastFoldOf(folds, i) == Some(0);
    }
  }

  /** `10 ** e`, read as the exact real the grid entry stands for. */
  function Pow10(e: int): real
    decreases if e < 0 then -e else e
  {
    if e == 0 then 1.0
    else if e > 0 then 10.0 * Pow10(e - 1)
    else Pow10(e + 1) / 10.0
  }

  /** The values of `C` searched over, `[10**i for i in range(-4, 5)]`:
      nine powers of ten from 0.0001 to 10000, each ten times the last. */
  function CGrid(): (r: seq<real>)
    ensures |r| == 9 && r[0] == 0.0001 && r[8] == 10000.0
    ensures forall k :: 0 <= k < 8 ==> r[k + 1] == 10.0 * r[k]
    ensures forall a, b :: 0 <= a < b < 9 ==> r[a] < r[b]
  {
    var r := seq(9, i requires 0 <= i < 9 => Pow10(i - 4));
    assert r[0] == 0.0001 by {
      assert Pow10(-4) == Pow10(-3) / 10.0;
      assert Pow10(-3) == Pow10(-2) / 10.0;
      assert Pow10(-2) == Pow10(-1) / 10.0;
    }
    assert r[8] == 10000.0 by {
      assert Pow10(4) == 10.0 * Pow10(3);
      assert Pow10(3) == 10.0 * Pow10(2);
      assert Pow10(2) == 10.0 * Pow10(1);
    }
    forall k | 0 <= k < 8
      ensures r[k + 1] == 10.0 * r[k]
    {
    }
    assert forall k :: 0 <= k < 9 ==> r[k] > 0.0;
    r
  }
}
