/** The cohort selection of the Sadi-Ahmed study: keep the study's 21
    features plus `Rectime` and `Gestation`, keep the recordings made in
    weeks 27 to 32, rank the term and the preterm recordings by
    `Gestation - Rectime`, take the term ranks 10..24 and the preterm ranks
    2..16, put the term recordings first and drop the two metadata columns.

    The rank windows reproduce one published cohort; they are constants,
    not a rule. */
module SadiAhmed {
  import opened Wrappers
  import opened Seqs
  import opened Ranking
  import opened Frames

  /** The study's feature columns, in the order the study keeps them. */
  const Features: seq<string> := [
    "FeaturesSadiAhmed_emd_3_n_peaks_ch1",
    "FeaturesSadiAhmed_emd_3_fwh_peak_freq_ch1",
    "FeaturesSadiAhmed_emd_3_gap_ch1",
    "FeaturesSadiAhmed_emd_6_n_peaks_ch1",
    "FeaturesSadiAhmed_emd_6_med_freq_ch1",
    "FeaturesSadiAhmed_emd_6_fwh_peak_power_ch1",
    "FeaturesSadiAhmed_emd_6_fwl_peak_power_ch1",
    "FeaturesSadiAhmed_emd_3_n_peaks_ch2",
    "FeaturesSadiAhmed_emd_3_fwh_peak_freq_ch2",
    "FeaturesSadiAhmed_emd_3_gap_ch2",
    "FeaturesSadiAhmed_emd_6_n_peaks_ch2",
    "FeaturesSadiAhmed_emd_6_med_freq_ch2",
    "FeaturesSadiAhmed_emd_6_fwh_peak_power_ch2",
    "FeaturesSadiAhmed_emd_6_fwl_peak_power_ch2",
    "FeaturesSadiAhmed_emd_3_n_peaks_ch3",
    "FeaturesSadiAhmed_emd_3_fwh_peak_freq_ch3",
    "FeaturesSadiAhmed_emd_3_gap_ch3",
    "FeaturesSadiAhmed_emd_6_n_peaks_ch3",
    "FeaturesSadiAhmed_emd_6_med_freq_ch3",
    "FeaturesSadiAhmed_emd_6_fwh_peak_power_ch3",
    "FeaturesSadiAhmed_emd_6_fwl_peak_power_ch3"
  ]

  const RectimeColumn: string := "Rectime"
  const GestationColumn: string := "Gestation"

  /** The two metadata columns, used for selection and then dropped. */
  const Metadata: seq<string> := [RectimeColumn, GestationColumn]

  /** The columns the study first narrows the table to. */
  const Narrowed: seq<string> := Features + Metadata

  /** Positions of the metadata columns in a narrowed table. */
  const RectimeAt: nat := 21
  const GestationAt: nat := 22

  /** The recording-time window, in weeks, both ends included. */
  const WindowLow: real := 27.0
  const WindowHigh: real := 32.0

  const TermLabel: int := 1
  const PretermLabel: int := 0

  /** The rank windows `[10:25)` and `[2:17)`. */
  const TermFrom: nat := 10
  const TermTo: nat := 25
  const PretermFrom: nat := 2
  const PretermTo: nat := 17

  /** Feature rows and the target series, aligned position by position. */
  datatype Cohort = Cohort(features: Frame, target: seq<int>)

  predicate InWindow(rectime: real) {
    WindowLow <= rectime <= WindowHigh
  }

  /** A table narrowed to the study's columns, with its target. */
  predicate IsNarrowed(c: Cohort) {
    && c.features.columns == Narrowed
    && Rectangular(c.features)
    && |c.target| == |c.features.rows|
  }

  /** The columns are laid out as the study names them, without repeats. */
  lemma NarrowedLayout()
    ensures |Features| == 21 && |Narrowed| == 23 && Distinct(Narrowed)
    ensures forall j :: 0 <= j < |Features| ==> Narrowed[j] == Features[j]
    ensures Narrowed[RectimeAt] == RectimeColumn && Narrowed[GestationAt] == GestationColumn
    ensures forall j :: 0 <= j < |Features| ==> Features[j] !in Metadata
  {
  }

  /** Rows whose recording time lies in the window, in table order
      (the mask of line 58). */
  function WindowPositions(c: Cohort): (r: seq<nat>)
    requires IsNarrowed(c)
    ensures StrictlyIncreasing(r) && InRange(r, |c.target|)
    ensures forall i :: 0 <= i < |c.target| ==>
      (InWindow(c.features.rows[i][RectimeAt]) <==> i in r)
  {
    Positions(seq(|c.target|, i requires 0 <= i < |c.target| => InWindow(c.features.rows[i][RectimeAt])))
  }

  /** `features.loc[mask]` and `target.loc[mask]`: the rows in the window,
      in table order, features and target masked alike. */
  function Restrict(c: Cohort): (r: Cohort)
    requires IsNarrowed(c)
    ensures IsNarrowed(r)
    ensures var w := WindowPositions(c);
      && |r.target| == |w|
      && forall k :: 0 <= k < |w| ==>
           r.features.rows[k] == c.features.rows[w[k]] && r.target[k] == c.target[w[k]]
    ensures forall k :: 0 <= k < |r.target| ==> InWindow(r.features.rows[k][RectimeAt])
  {
    var w := WindowPositions(c);
    Cohort(TakeRows(c.features, w), Gather(c.target, w))
  }

  /** Every row in the window survives the restriction, and rows keep their
      relative order. */
  lemma {:induction false} RestrictKeepsWindow(c: Cohort, i: nat)
    requires IsNarrowed(c) && i < |c.target| && InWindow(c.features.rows[i][RectimeAt])
    ensures exists k ::
      && 0 <= k < |Restrict(c).target| && WindowPositions(c)[k] == i
      && Restrict(c).features.rows[k] == c.features.rows[i]
      && Restrict(c).target[k] == c.target[i]
  {
    var w := WindowPositions(c);
    assert i in w;
    var k :| 0 <= k < |w| && w[k] == i;
    assert Restrict(c).features.rows[k] == c.features.rows[i];
  }

  /** `np.arange(len(target))[target == value]`: the positions carrying
      `value`, in increasing order. */
  function LabelPositions(target: seq<int>, value: int): (r: seq<nat>)
    ensures StrictlyIncreasing(r) && InRange(r, |target|)
    ensures forall i :: 0 <= i < |target| ==> (target[i] == value <==> i in r)
  {
    Positions(seq(|target|, i requires 0 <= i < |target| => target[i] == value))
  }

  /** The term and the preterm positions never share a position; together
      they are every position labelled 0 or 1. */
  lemma GroupsDisjoint(target: seq<int>)
    ensures forall i :: i in LabelPositions(target, TermLabel) ==> i !in LabelPositions(target, PretermLabel)
    ensures forall i :: 0 <= i < |target| ==>
      (i in LabelPositions(target, TermLabel) || i in LabelPositions(target, PretermLabel)
       <==> target[i] == 0 || target[i] == 1)
  {
  }

  /** `Gestation - Rectime` for every row. */
  function Diffs(c: Cohort): (r: seq<real>)
    requires IsNarrowed(c)
    ensures |r| == |c.target|
  {
    seq(|c.target|, i requires 0 <= i < |c.target| =>
      c.features.rows[i][GestationAt] - c.features.rows[i][RectimeAt])
  }

  /** The ranked window of a group, read back as group members: ordered by
      key, and every member left out keyed below or above all of it. */
  lemma {:induction false} GroupWindow(group: seq<nat>, keys: seq<real>, order: seq<nat>, lo: nat, hi: nat)
    requires InRange(group, |keys|) && IsArgsort(Gather(keys, group), order)
    ensures var r := Gather(group, Slice(order, lo, hi));
      && (Distinct(group) ==> Distinct(r))
      && (forall a, b :: 0 <= a < b < |r| ==> keys[r[a]] <= keys[r[b]])
      && forall g :: g in group && g !in r ==>
           || (forall j :: 0 <= j < |r| ==> keys[g] <= keys[r[j]])
           || (forall j :: 0 <= j < |r| ==> keys[r[j]] <= keys[g])
  {
    var groupKeys := Gather(keys, group);
    var w := Slice(order, lo, hi);
    var r := Gather(group, w);
    RankedWindow(groupKeys, order, lo, hi);
    if Distinct(group) {
      GatherDistinct(group, w);
    }
    forall g | g in group && g !in r
      ensures || (forall j :: 0 <= j < |r| ==> keys[g] <= keys[r[j]])
              || (forall j :: 0 <= j < |r| ==> keys[r[j]] <= keys[g])
    {
      var p :| 0 <= p < |group| && group[p] == g;
      assert p !in w by {
        assert forall m :: 0 <= m < |w| ==> r[m] == group[w[m]];
      }
      OutsideWindow(groupKeys, order, lo, hi, p);
    }
  }

  /** `s` is the window `[lo, hi)` of the ranking `order` of `group` by
      `keys`: a member is in `s` exactly when its rank lies in `[lo, hi)`
      (for a group without repeats), members ranked before `lo` are keyed no
      higher than any of `s` and members ranked from `hi` on no lower. */
  predicate IsRankWindow(group: seq<nat>, keys: seq<real>, order: seq<nat>, lo: nat, hi: nat, s: seq<nat>)
    requires InRange(group, |keys|) && IsPermutation(order, |group|)
  {
    && InRange(s, |keys|)
    && (Distinct(group) ==> forall p :: 0 <= p < |group| ==> (group[order[p]] in s <==> lo <= p < hi))
    && (forall p, j :: 0 <= p < Min(lo, |group|) && 0 <= j < |s| ==> keys[group[order[p]]] <= keys[s[j]])
    && (forall p, j :: hi <= p < |group| && 0 <= j < |s| ==> keys[s[j]] <= keys[group[order[p]]])
  }

  /** The window `order[lo:hi]`, read back as group members, takes exactly
      the ranks `[lo, hi)`. */
  lemma {:induction false} GroupRanks(group: seq<nat>, keys: seq<real>, order: seq<nat>, lo: nat, hi: nat)
    requires InRange(group, |keys|) && IsArgsort(Gather(keys, group), order)
    ensures IsRankWindow(group, keys, order, lo, hi, Gather(group, Slice(order, lo, hi)))
  {
    var groupKeys := Gather(keys, group);
    var w := Slice(order, lo, hi);
    var r := Gather(group, w);
    RankedWindow(groupKeys, order, lo, hi);
    if Distinct(group) {
      forall p | 0 <= p < |group|
        ensures group[order[p]] in r <==> lo <= p < hi
      {
        if lo <= p < hi {
          assert r[p - lo] == group[order[p]];
        }
        if group[order[p]] in r {
          var k :| 0 <= k < |r| && r[k] == group[order[p]];
          assert group[order[lo + k]] == group[order[p]];
          assert order[lo + k] == order[p];
          assert lo + k == p;
        }
      }
    }
    forall p, j | 0 <= p < Min(lo, |group|) && 0 <= j < |r|
      ensures keys[group[order[p]]] <= keys[r[j]]
    {
      assert groupKeys[order[p]] <= groupKeys[w[j]];
    }
    forall p, j | hi <= p < |group| && 0 <= j < |r|
      ensures keys[r[j]] <= keys[group[order[p]]]
    {
      assert groupKeys[w[j]] <= groupKeys[order[p]];
    }
  }

  /** `group[order[lo:hi]]` for a ranking `order` of the group by `keys`:
      the members ranked `lo` to `hi - 1`, in rank order. */
  function RankedSampleBy(group: seq<nat>, keys: seq<real>, order: seq<nat>, lo: nat, hi: nat): (r: seq<nat>)
    requires InRange(group, |keys|) && IsArgsort(Gather(keys, group), order)
    ensures |r| == Max(0, Min(hi, |group|) - lo)
    ensures forall k :: 0 <= k < |r| ==> r[k] in group
    ensures Distinct(group) ==> Distinct(r)
    ensures forall a, b :: 0 <= a < b < |r| ==> keys[r[a]] <= keys[r[b]]
    ensures IsRankWindow(group, keys, order, lo, hi, r)
    ensures forall g :: g in group && g !in r ==>
      || (forall j :: 0 <= j < |r| ==> keys[g] <= keys[r[j]])
      || (forall j :: 0 <= j < |r| ==> keys[r[j]] <= keys[g])
  {
    GroupWindow(group, keys, order, lo, hi);
    GroupRanks(group, keys, order, lo, hi);
    Gather(group, Slice(order, lo, hi))
  }

  /** `np.argsort` of the `Gestation - Rectime` values of the rows labelled
      `value`: a ranking of that group, lowest difference first. */
  function GroupRanking(c: Cohort, value: int): (r: seq<nat>)
    requires IsNarrowed(c)
    ensures IsArgsort(Gather(Diffs(c), LabelPositions(c.target, value)), r)
  {
    Argsort(Gather(Diffs(c), LabelPositions(c.target, value)))
  }

  /** `group[np.argsort(diffs)[lo:hi]]` for the rows labelled `value`. */
  function GroupSample(c: Cohort, value: int, lo: nat, hi: nat): seq<nat>
    requires IsNarrowed(c)
  {
    RankedSampleBy(LabelPositions(c.target, value), Diffs(c), GroupRanking(c, value), lo, hi)
  }

  /** `term_sample`: the term positions ranked 10..24 by `Gestation - Rectime`. */
  function TermSample(c: Cohort): (r: seq<nat>)
    requires IsNarrowed(c)
    ensures |r| == Max(0, Min(TermTo, |LabelPositions(c.target, TermLabel)|) - TermFrom)
    ensures |r| <= 15 && (|LabelPositions(c.target, TermLabel)| >= TermTo ==> |r| == 15)
    ensures Distinct(r) && InRange(r, |c.target|)
    ensures forall k :: 0 <= k < |r| ==> c.target[r[k]] == TermLabel
    ensures IsRankWindow(LabelPositions(c.target, TermLabel), Diffs(c), GroupRanking(c, TermLabel), TermFrom, TermTo, r)
    ensures forall a, b :: 0 <= a < b < |r| ==> Diffs(c)[r[a]] <= Diffs(c)[r[b]]
  {
    var group := LabelPositions(c.target, TermLabel);
    IncreasingIsDistinct(group);
    GroupSample(c, TermLabel, TermFrom, TermTo)
  }

  /** `preterm_sample`: the preterm positions ranked 2..16 by
      `Gestation - Rectime`. */
  function PretermSample(c: Cohort): (r: seq<nat>)
    requires IsNarrowed(c)
    ensures |r| == Max(0, Min(PretermTo, |LabelPositions(c.target, PretermLabel)|) - PretermFrom)
    ensures |r| <= 15 && (|LabelPositions(c.target, PretermLabel)| >= PretermTo ==> |r| == 15)
    ensures Distinct(r) && InRange(r, |c.target|)
    ensures forall k :: 0 <= k < |r| ==> c.target[r[k]] == PretermLabel
    ensures IsRankWindow(LabelPositions(c.target, PretermLabel), Diffs(c), GroupRanking(c, PretermLabel), PretermFrom, PretermTo, r)
    ensures forall a, b :: 0 <= a < b < |r| ==> Diffs(c)[r[a]] <= Diffs(c)[r[b]]
  {
    var group := LabelPositions(c.target, PretermLabel);
    IncreasingIsDistinct(group);
    GroupSample(c, PretermLabel, PretermFrom, PretermTo)
  }

  /** Read against the ranking the study uses: a term row is sampled
      exactly when its rank is in `[10, 25)`, the term rows ranked below 10
      have differences no larger than any sampled term row and those ranked
      25 or later no smaller; likewise for the preterm ranks `[2, 17)`. Without
      the ranking: a row of a group left out of its sample has a difference
      no larger than every sampled one or no smaller than every sampled
      one. */
  lemma {:induction false} SamplesAreRankWindows(c: Cohort, g: nat)
    requires IsNarrowed(c)
    ensures IsRankWindow(LabelPositions(c.target, TermLabel), Diffs(c), GroupRanking(c, TermLabel),
                         TermFrom, TermTo, TermSample(c))
    ensures IsRankWindow(LabelPositions(c.target, PretermLabel), Diffs(c), GroupRanking(c, PretermLabel),
                         PretermFrom, PretermTo, PretermSample(c))
    ensures var s := TermSample(c);
      g in LabelPositions(c.target, TermLabel) && g !in s ==>
        || (forall j :: 0 <= j < |s| ==> Diffs(c)[g] <= Diffs(c)[s[j]])
        || (forall j :: 0 <= j < |s| ==> Diffs(c)[s[j]] <= Diffs(c)[g])
    ensures var s := PretermSample(c);
      g in LabelPositions(c.target, PretermLabel) && g !in s ==>
        || (forall j :: 0 <= j < |s| ==> Diffs(c)[g] <= Diffs(c)[s[j]])
        || (forall j :: 0 <= j < |s| ==> Diffs(c)[s[j]] <= Diffs(c)[g])
  {
    var terms := LabelPositions(c.target, TermLabel);
    var preterms := LabelPositions(c.target, PretermLabel);
    IncreasingIsDistinct(terms);
    IncreasingIsDistinct(preterms);
    var t := RankedSampleBy(terms, Diffs(c), GroupRanking(c, TermLabel), TermFrom, TermTo);
    var p := RankedSampleBy(preterms, Diffs(c), GroupRanking(c, PretermLabel), PretermFrom, PretermTo);
    assert TermSample(c) == t && PretermSample(c) == p;
  }

  /** `term_sample + preterm_sample`: at most 30 positions, none twice, each
      labelled term or preterm, and no term row after a preterm row. */
  function Sample(c: Cohort): (r: seq<nat>)
    requires IsNarrowed(c)
    ensures |r| <= 30 && Distinct(r) && InRange(r, |c.target|)
    ensures forall k :: 0 <= k < |r| ==> c.target[r[k]] == TermLabel || c.target[r[k]] == PretermLabel
    ensures forall a, b :: 0 <= a < b < |r| && c.target[r[a]] == PretermLabel ==>
      c.target[r[b]] == PretermLabel
  {
    var t := TermSample(c);
    var p := PretermSample(c);
    assert forall k :: 0 <= k < |t| ==> (t + p)[k] == t[k];
    assert forall k :: 0 <= k < |p| ==> (t + p)[|t| + k] == p[k];
    t + p
  }

  /** The cohort is the term sample followed by the preterm sample. With at
      least 25 term and 17 preterm rows it has exactly 30 rows: 15 term
      rows, then 15 preterm rows. */
  lemma {:induction false} SampleIsTermThenPreterm(c: Cohort)
    requires IsNarrowed(c)
    ensures var s := Sample(c);
      var t := TermSample(c);
      && |s| == |t| + |PretermSample(c)|
      && (forall k :: 0 <= k < |t| ==> s[k] == t[k])
      && (forall k :: 0 <= k < |PretermSample(c)| ==> s[|t| + k] == PretermSample(c)[k])
      && (forall k :: 0 <= k < |t| ==> c.target[s[k]] == TermLabel)
      && (forall k :: |t| <= k < |s| ==> c.target[s[k]] == PretermLabel)
    ensures |LabelPositions(c.target, TermLabel)| >= TermTo
            && |LabelPositions(c.target, PretermLabel)| >= PretermTo ==>
      && |Sample(c)| == 30 && |TermSample(c)| == 15
      && (forall k :: 0 <= k < 15 ==> c.target[Sample(c)[k]] == TermLabel)
      && (forall k :: 15 <= k < 30 ==> c.target[Sample(c)[k]] == PretermLabel)
  {
    var t := TermSample(c);
    var p := PretermSample(c);
    var s := Sample(c);
    assert forall k :: 0 <= k < |t| ==> s[k] == t[k];
    assert forall k :: |t| <= k < |s| ==> s[k] == p[k - |t|];
  }

  /** The narrowed table of a well-formed input, with its target
      (`features.loc[:, Narrowed]`). */
  function NarrowedCohort(features: Frame, target: seq<int>): (r: Cohort)
    requires WellFormed(features) && |target| == |features.rows|
    requires SelectColumns(features, Narrowed).Some?
    ensures IsNarrowed(r) && r.target == target
    ensures Carries(features, r.features)
  {
    Cohort(SelectColumns(features, Narrowed).value, target)
  }

  /** `features.drop([...])` followed by `features.iloc[sample]` and
      `target.iloc[sample]`: the sampled rows, term rows first, without the
      metadata columns, each feature cell and target entry taken from the
      sampled position. */
  function Assemble(kept: Cohort): (r: Cohort)
    requires IsNarrowed(kept)
    ensures r.features.columns == Features
    ensures |r.features.rows| == |r.target| == |Sample(kept)|
    ensures forall k :: 0 <= k < |r.target| ==> r.target[k] == kept.target[Sample(kept)[k]]
    ensures forall k, j :: 0 <= k < |r.target| && 0 <= j < |Features| ==>
      |r.features.rows[k]| == |Features| && r.features.rows[k][j] == kept.features.rows[Sample(kept)[k]][j]
  {
    NarrowedLayout();
    DropTrailing(kept.features, Features, Metadata);
    var dropped := DropColumns(kept.features, Metadata).value;
    var s := Sample(kept);
    Cohort(TakeRows(dropped, s), Gather(kept.target, s))
  }

  /** Lines 57-75 of the study: the selected cohort, or `None` when a
      column the study needs is missing (pandas raises `KeyError`). */
  function Select(features: Frame, target: seq<int>): Option<Cohort>
    requires WellFormed(features) && |target| == |features.rows|
  {
    if SelectColumns(features, Narrowed).None? then None
    else Some(Assemble(Restrict(NarrowedCohort(features, target))))
  }

  /** For each row of the selected cohort, the position of the input row
      it comes from. */
  function Provenance(features: Frame, target: seq<int>): seq<nat>
    requires WellFormed(features) && |target| == |features.rows|
    requires SelectColumns(features, Narrowed).Some?
  {
    var c := NarrowedCohort(features, target);
    Gather(WindowPositions(c), Sample(Restrict(c)))
  }

  /** Cells traced back through the three steps of the selection: the
      narrowing `narrowed` of `features`, the row restriction `kept` through
      positions `w` and the sampled rows `out` through positions `s`, whose
      first `|Features|` cells are kept. */
  lemma {:induction false} CellsTraceBack(features: Frame, narrowed: Frame, kept: Frame, out: Frame,
                                          w: seq<nat>, s: seq<nat>)
    requires WellFormed(features) && Carries(features, narrowed)
    requires forall j :: 0 <= j < |Features| ==> j < |narrowed.columns| && narrowed.columns[j] == Features[j]
    requires InRange(w, |narrowed.rows|) && |kept.rows| == |w|
    requires forall m :: 0 <= m < |w| ==> kept.rows[m] == narrowed.rows[w[m]]
    requires Rectangular(kept) && |Features| <= |kept.columns|
    requires InRange(s, |kept.rows|) && |out.rows| == |s|
    requires forall k, j :: 0 <= k < |s| && 0 <= j < |Features| ==>
      |out.rows[k]| == |Features| && out.rows[k][j] == kept.rows[s[k]][j]
    ensures var src := Gather(w, s);
      && InRange(src, |features.rows|)
      && forall k, j, col ::
           0 <= k < |src| && 0 <= j < |Features| && 0 <= col < |features.columns|
           && features.columns[col] == Features[j]
           ==> |out.rows[k]| == |Features| && out.rows[k][j] == features.rows[src[k]][col]
  {
    var src := Gather(w, s);
    forall k, j, col |
      0 <= k < |src| && 0 <= j < |Features| && 0 <= col < |features.columns|
      && features.columns[col] == Features[j]
      ensures |out.rows[k]| == |Features| && out.rows[k][j] == features.rows[src[k]][col]
    {
      assert kept.rows[s[k]] == narrowed.rows[src[k]];
      assert narrowed.columns[j] == features.columns[col];
    }
  }

  /** The recording time traced back the same way: every kept row lies in
      the window, so every sampled row comes from an input row that does. */
  lemma {:induction false} WindowTracesBack(features: Frame, narrowed: Frame, kept: Frame,
                                            w: seq<nat>, s: seq<nat>)
    requires WellFormed(features) && Carries(features, narrowed)
    requires RectimeAt < |narrowed.columns| && narrowed.columns[RectimeAt] == RectimeColumn
    requires InRange(w, |narrowed.rows|) && |kept.rows| == |w|
    requires forall m :: 0 <= m < |w| ==> kept.rows[m] == narrowed.rows[w[m]]
    requires forall m :: 0 <= m < |w| ==> RectimeAt < |kept.rows[m]| && InWindow(kept.rows[m][RectimeAt])
    requires InRange(s, |kept.rows|)
    ensures var src := Gather(w, s);
      && InRange(src, |features.rows|)
      && forall k, col ::
           0 <= k < |src| && 0 <= col < |features.columns| && features.columns[col] == RectimeColumn
           ==> InWindow(features.rows[src[k]][col])
  {
    var src := Gather(w, s);
    forall k, col | 0 <= k < |src| && 0 <= col < |features.columns| && features.columns[col] == RectimeColumn
      ensures InWindow(features.rows[src[k]][col])
    {
      assert kept.rows[s[k]] == narrowed.rows[src[k]];
    }
  }

  /** The selection fails exactly when a needed column is missing. When it
      succeeds, its columns are the study's 21 features in list order, it
      has at most 30 rows, term rows before preterm rows, each row is a
      distinct input row, and the target entry of each row is the input's
      entry for the row it comes from. */
  lemma {:induction false} SelectSpec(features: Frame, target: seq<int>)
    requires WellFormed(features) && |target| == |features.rows|
    ensures Select(features, target).Some? <==>
      forall j :: 0 <= j < |Narrowed| ==> Narrowed[j] in features.columns
    ensures Select(features, target).Some? ==>
      var c := Select(features, target).value;
      var src := Provenance(features, target);
      && c.features.columns == Features
      && |c.features.rows| == |c.target| == |src| <= 30
      && Distinct(src) && InRange(src, |target|)
      && (forall k :: 0 <= k < |src| ==> c.target[k] == target[src[k]])
      && (forall k :: 0 <= k < |src| ==> c.target[k] == TermLabel || c.target[k] == PretermLabel)
      && (forall a, b :: 0 <= a < b < |src| && c.target[a] == PretermLabel ==> c.target[b] == PretermLabel)
  {
    if SelectColumns(features, Narrowed).Some? {
      var narrowed := NarrowedCohort(features, target);
      var kept := Restrict(narrowed);
      var w := WindowPositions(narrowed);
      var s := Sample(kept);
      IncreasingIsDistinct(w);
      GatherDistinct(w, s);
    }
  }

  /** How many rows of each class the selection holds: the term sample's
      rows first, then the preterm sample's, where both samples are drawn
      from the rows inside the window. With at least 25 term and 17 preterm
      rows inside the window, that is 15 term rows followed by 15 preterm
      rows. */
  lemma {:induction false} SelectCounts(features: Frame, target: seq<int>)
    requires WellFormed(features) && |target| == |features.rows|
    requires SelectColumns(features, Narrowed).Some?
    ensures Select(features, target).Some?
    ensures var c := Select(features, target).value;
      var kept := Restrict(NarrowedCohort(features, target));
      var t := |TermSample(kept)|;
      && |c.target| == t + |PretermSample(kept)|
      && (forall k :: 0 <= k < t ==> c.target[k] == TermLabel)
      && (forall k :: t <= k < |c.target| ==> c.target[k] == PretermLabel)
    ensures var c := Select(features, target).value;
      var kept := Restrict(NarrowedCohort(features, target));
      |LabelPositions(kept.target, TermLabel)| >= TermTo
      && |LabelPositions(kept.target, PretermLabel)| >= PretermTo ==>
        && |c.target| == 30
        && (forall k :: 0 <= k < 15 ==> c.target[k] == TermLabel)
        && (forall k :: 15 <= k < 30 ==> c.target[k] == PretermLabel)
  {
    var kept := Restrict(NarrowedCohort(features, target));
    SampleIsTermThenPreterm(kept);
  }

  /** Each row of the selected cohort comes from an input row recorded
      inside the window. */
  lemma {:induction false} SelectKeepsWindow(features: Frame, target: seq<int>)
    requires WellFormed(features) && |target| == |features.rows|
    requires SelectColumns(features, Narrowed).Some?
    ensures var src := Provenance(features, target);
      && InRange(src, |features.rows|)
      && forall k, col ::
           0 <= k < |src| && 0 <= col < |features.columns| && features.columns[col] == RectimeColumn
           ==> InWindow(features.rows[src[k]][col])
  {
    var narrowed := NarrowedCohort(features, target);
    var kept := Restrict(narrowed);
    assert Narrowed[RectimeAt] == RectimeColumn;
    WindowTracesBack(features, narrowed.features, kept.features, WindowPositions(narrowed), Sample(kept));
  }

  /** Each cell of the selected cohort is the input's cell for the row it
      comes from and the same feature. */
  lemma {:induction false} SelectKeepsCells(features: Frame, target: seq<int>)
    requires WellFormed(features) && |target| == |features.rows|
    requires SelectColumns(features, Narrowed).Some?
    ensures Select(features, target).Some?
    ensures var c := Select(features, target).value;
      var src := Provenance(features, target);
      && |c.features.rows| == |src| && InRange(src, |features.rows|)
      && forall k, j, col ::
           0 <= k < |src| && 0 <= j < |Features| && 0 <= col < |features.columns|
           && features.columns[col] == Features[j]
           ==> |c.features.rows[k]| == |Features| && c.features.rows[k][j] == features.rows[src[k]][col]
  {
    var narrowed := NarrowedCohort(features, target);
    var kept := Restrict(narrowed);
    var c := Assemble(kept);
    NarrowedLayout();
    assert Select(features, target) == Some(c);
    CellsTraceBack(features, narrowed.features, kept.features, c.features, WindowPositions(narrowed), Sample(kept));
  }
}
