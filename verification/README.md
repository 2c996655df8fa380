# EHG-Oversampling: cohort selection, feature ranking and out-of-fold assembly

This project models, in Dafny, the parts of the EHG-Oversampling studies that
are the repository's own logic rather than calls into scikit-learn or
smote_variants:

- **Sadi-Ahmed cohort selection** (module `SadiAhmed`). The study narrows the
  feature table to its 21 named features plus `Rectime` and `Gestation`. It
  keeps the recordings with `27 <= Rectime <= 32` and splits them into term
  (label 1) and preterm (label 0) positions. Each group is ranked by
  `Gestation - Rectime`. The study takes term ranks `[10:25)` and preterm
  ranks `[2:17)`, with Python's slice clamping. Term rows come first, and the
  two metadata columns are dropped.
- **Hosseinzahde feature ranking** (module `Hosseinzahde`). The study keeps
  the ten columns with the largest random-forest importances, most important
  first. The importances are an input.
- **Out-of-fold prediction assembly** (module `Evaluation`). `evaluate`
  starts from an `n x 3` zero table. Every fold writes `(fold, label,
  prediction)` into the rows it holds out, and later folds overwrite earlier
  ones. The module also holds the in-sample details table and the grid of `C`
  values.

Supporting modules:

- `Seqs`: index lists, gathering, Python slicing, and the positions where a
  boolean mask holds.
- `Ranking`: `np.argsort` and top-k.
- `Frames`: the pandas operations the studies use (`loc` column selection,
  `drop`, `iloc` row selection). A missing label becomes `None`, the model's
  stand-in for pandas' `KeyError`.
- `Wrappers`: `Option`.

`np.argsort` is not stable by default, so the order it gives to tied keys is
not specified. `Ranking.Argsort` is one concrete ranking. Every ranking
property below is proved from the predicate `IsArgsort` alone, so it holds
whichever tie order numpy uses.

Two points where the code does less than its structure suggests:

- The correct-oversampling branch builds a pipeline but passes the bare
  `OversamplingClassifier` to `evaluate` (sadiahmed.py line 98,
  hosseinzahde.py line 64). That branch therefore runs no preprocessing. The
  model claims nothing about preprocessing in any branch.
- `evaluate` writes each row once only when the folds' held-out sets
  partition the rows. Otherwise a row may be written by several folds, the
  last one winning, or by none, keeping its zeros. The once-per-row
  statement is therefore proved under that partition precondition
  (`Evaluation.PartitionedDetails`).

## Model

| member | source | states |
|---|---|---|
| Seqs.Slice | ehgfeatures/studies/sadiahmed.py:71-72 | Python `s[lo:hi]` with non-negative bounds never fails: the result has length `max(0, min(hi, len) - lo)`, and entry `k` is `s[lo + k]` |
| Seqs.Positions | ehgfeatures/studies/sadiahmed.py:62-63 | `np.arange(n)[mask]` is strictly increasing and in range, and contains `i` exactly when `mask[i]` holds |
| Ranking.Argsort | ehgfeatures/studies/sadiahmed.py:71-72 | `np.argsort` returns every index exactly once, ordered so that keys do not decrease |
| Ranking.RankedWindow | ehgfeatures/studies/sadiahmed.py:71-72 | inside a window `order[lo:hi]` of an ascending ranking, keys are ordered; no key ranked before the window exceeds one in it, and no key ranked after it is smaller than one in it |
| Ranking.OutsideWindow | ehgfeatures/studies/sadiahmed.py:71-72 | an index outside the window has a key no larger than every key in the window, or no smaller than every key in it, whatever the tie order |
| Ranking.TopIndices | ehgfeatures/studies/hosseinzahde.py:36-38 | `argsort(keys)[::-1][:k]` gives `min(k, n)` distinct indices with non-increasing keys; no index left out has a larger key than any index kept |
| Frames.SelectColumns | ehgfeatures/studies/sadiahmed.py:57 | `loc[:, names]` succeeds exactly when every name is a column; the result has columns `names` in that order, the same rows, and each cell the input's cell under the same label |
| Frames.DropColumns | ehgfeatures/studies/sadiahmed.py:68 | `drop(names, axis=1)` succeeds exactly when every name is a column; it keeps the other labels in table order, with their cells |
| Frames.DropTrailing | ehgfeatures/studies/sadiahmed.py:68 | dropping the trailing labels of a table leaves its leading columns in order, with every cell in place |
| Evaluation.LastFoldOf | ehgfeatures/studies/sadiahmed.py:42-50 | the fold whose write a row keeps is the last fold holding it out; `None` exactly when no fold holds it out |
| Evaluation.Evaluate | ehgfeatures/studies/sadiahmed.py:40-54 | the table has `len(X)` rows; a row no fold holds out stays `(0, 0, 0)`; a held-out row carries its own label and a fold id in `[0, folds)` no earlier than any fold holding it out; the whole table equals the row-by-row reference `Details` |
| Evaluation.PartitionedDetails | ehgfeatures/studies/hosseinzahde.py:17-31 | when the held-out sets partition the rows, row `i` holds the fold containing `i`, `y[i]`, and the prediction of the pipeline fitted on that fold's training rows; every fold with a held-out row appears in the fold column |
| Evaluation.InSampleIsOneFold | ehgfeatures/studies/hosseinzahde.py:70-72 | specifies `InSampleDetails`: the in-sample table has one row per target entry, fold 0 throughout, and the target as label; it equals the evaluation with one fold that fits on and holds out every row |
| Evaluation.CGrid | ehgfeatures/studies/hosseinzahde.py:45 | the `C` grid has nine entries, from 0.0001 to 10000, each ten times the previous one, so it is strictly increasing |
| SadiAhmed.NarrowedLayout | ehgfeatures/studies/sadiahmed.py:57 | the narrowed table has 23 distinct columns: the 21 features, then `Rectime` at position 21 and `Gestation` at 22; no feature is a metadata label |
| SadiAhmed.WindowPositions | ehgfeatures/studies/sadiahmed.py:58 | the mask keeps row `i` exactly when `27 <= Rectime <= 32`, both ends included, in table order |
| SadiAhmed.Restrict | ehgfeatures/studies/sadiahmed.py:58-60 | every kept row lies in the window; features and target are masked by the same positions, so they stay aligned |
| SadiAhmed.RestrictKeepsWindow | ehgfeatures/studies/sadiahmed.py:58-60 | every input row inside the window survives, together with its target entry |
| SadiAhmed.LabelPositions | ehgfeatures/studies/sadiahmed.py:62-63 | `term_ix` / `preterm_ix` are strictly increasing and in range, and hold exactly the positions with that label |
| SadiAhmed.GroupsDisjoint | ehgfeatures/studies/sadiahmed.py:62-63 | term and preterm positions are disjoint; together they are exactly the positions labelled 0 or 1 |
| SadiAhmed.RankedSampleBy | ehgfeatures/studies/sadiahmed.py:65-72 | for any valid ranking `order` of a group, `group[order[lo:hi]]` has the clamped length and holds distinct group members in non-decreasing key order. It is the rank window `[lo, hi)` (`IsRankWindow`): a member is in it exactly when its rank lies in `[lo, hi)`, members ranked before `lo` are keyed no higher than any of it, and members ranked from `hi` on no lower. Every member left out is keyed below or above all of it |
| SadiAhmed.GroupRanks | ehgfeatures/studies/sadiahmed.py:71-72 | the window `order[lo:hi]`, read back as group members, is exactly the rank window `[lo, hi)` of `order`: membership by rank, with lower ranks keyed no higher and later ranks no lower |
| SadiAhmed.TermSample | ehgfeatures/studies/sadiahmed.py:62-71 | the term sample has length `max(0, min(25, #term) - 10)`, so at most 15, and exactly 15 when there are at least 25 term rows. It holds distinct term positions in non-decreasing `Gestation - Rectime` order (`Diffs`). A term row is in it exactly when its rank in the study's `argsort` (`GroupRanking`) lies in `[10, 25)` |
| SadiAhmed.PretermSample | ehgfeatures/studies/sadiahmed.py:63-72 | the preterm sample has length `max(0, min(17, #preterm) - 2)`, so at most 15, and exactly 15 when there are at least 17 preterm rows. It holds distinct preterm positions in non-decreasing `Gestation - Rectime` order. A preterm row is in it exactly when its rank lies in `[2, 17)` |
| SadiAhmed.SamplesAreRankWindows | ehgfeatures/studies/sadiahmed.py:65-72 | the term sample is rank window `[10, 25)` and the preterm sample rank window `[2, 17)` of the ranking the study uses. The 10 (2) rows ranked first have differences no larger than any sampled row, and rows ranked from 25 (17) on no smaller. Seen without the ranking, a row left out of its group's sample is keyed below or above all of it |
| SadiAhmed.Sample | ehgfeatures/studies/sadiahmed.py:74-75 | `term_sample + preterm_sample` has no repeated position and at most 30 entries, each labelled term or preterm. No term row follows a preterm row |
| SadiAhmed.SampleIsTermThenPreterm | ehgfeatures/studies/sadiahmed.py:74-75 | the cohort is the term sample followed by the preterm sample, entry for entry, so its term rows are exactly the first `len(term_sample)` rows. With at least 25 term and 17 preterm rows it has exactly 30 rows: 15 term rows, then 15 preterm rows |
| SadiAhmed.Assemble | ehgfeatures/studies/sadiahmed.py:68-75 | the output columns are exactly the 21 features in list order; feature row `k` and target entry `k` both come from sampled position `k` |
| Frames.TakeRows | ehgfeatures/studies/sadiahmed.py:74 | `iloc[ix]` keeps the columns and returns, for each `k`, row `ix[k]` of the table |
| SadiAhmed.SelectSpec | ehgfeatures/studies/sadiahmed.py:56-75 | specifies `Select`, the whole selection. It fails exactly when a needed column is missing. Otherwise it returns the 21 features and at most 30 rows, term rows before preterm rows. The rows are drawn from distinct input rows (`Provenance`), whose targets they carry |
| SadiAhmed.SelectCounts | ehgfeatures/studies/sadiahmed.py:62-75 | the selected cohort has `len(term_sample) + len(preterm_sample)` rows: term-labelled rows first, then preterm-labelled rows. With at least 25 term and 17 preterm recordings inside the window it has 30 rows, the first 15 term and the last 15 preterm |
| SadiAhmed.SelectKeepsWindow | ehgfeatures/studies/sadiahmed.py:58-75 | every selected row comes from an input row whose `Rectime` lies in `[27, 32]` |
| SadiAhmed.SelectKeepsCells | ehgfeatures/studies/sadiahmed.py:57-75 | every selected feature cell is the input's cell for the same row and feature |
| Hosseinzahde.FeatureImportances | ehgfeatures/studies/hosseinzahde.py:33-38 | returns `min(10, #columns)` column labels, distinct when the labels are; in non-increasing importance order; no column left out is more important than one returned |
| Hosseinzahde.StudyKeepsTopColumns | ehgfeatures/studies/hosseinzahde.py:41 | specifies `StudyFeatures`: the study keeps exactly the returned columns, in returned order, with every row and cell unchanged |

## Left out

- Classifier fitting and `predict_proba` (SVC, GridSearchCV, Pipeline, OversamplingClassifier) are opaque numerical library code. A fitted pipeline's prediction is a function of the rows it was fitted on and the row it scores (`Evaluation.Predictor`). In-place mutation of the pipeline across folds is therefore not visible in the model.
- ADASYN oversampling is library code. The incorrect-oversampling branch is `Evaluate` applied to the oversampled table, which is an input.
- StratifiedKFold splitting is library code. The folds are an input. Stratification and class ratios are not modelled; the partition property is a precondition of `Evaluation.PartitionedDetails`.
- Evaluation.Evaluate: held-out indices must lie in `0 .. len(X) - 1`, and `len(y)` must equal `len(X)`. numpy's wrap-around for negative indices and its error for out-of-range ones are not modelled; the splitter never produces either.
- RandomForest importances are library code. They are an input to `Hosseinzahde.FeatureImportances`, one per column.
- Hosseinzahde.FeatureImportances: the ordering and top-k statements are made only for tables whose column labels are unique, because a repeated label does not determine a single column.
- Frames with repeated column labels are not modelled (`Frames.WellFormed`), because pandas' `loc` then returns every column sharing the label.
- pandas aligns `target.loc[mask]` by index label. The model aligns by position, so it assumes that callers pass `features` and `target` with one shared index. With different indexes, pandas aligns the mask by label, or raises an error when the mask cannot be aligned. The model does not cover that.
- `roc_auc_score`, the AUC values, the results dictionary, `json.dump` and the `print` progress lines are library or I/O code with no stated guarantees.
- Floating point: table cells, `Rectime`, `Gestation` and importances are exact reals, and `10**i` for negative `i` is the exact power of ten. Float rounding is not modelled.
- SadiAhmed.RankedSampleBy and the ranking lemmas leave the order of tied keys open, as numpy does. `SadiAhmed.GroupRanking` commits to the concrete `Ranking.Argsort`. With ties, the exact cohort it picks may differ from numpy's. Every stated property still holds for both, and the rank-window clauses hold relative to whichever ranking is used.
- Preprocessing (StandardScaler) is not modelled. The correct-oversampling branch bypasses it in the code.
- The unused `pyswarms` import has no behaviour.
