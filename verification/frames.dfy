/** The slice of pandas the studies use: a table of named numeric columns,
    column selection by label (`df.loc[:, names]`), column removal
    (`df.drop(names, axis=1)`) and positional row selection (`df.iloc[ix]`).
    A label that is not a column makes pandas raise `KeyError`; here that is
    `None`. */
module Frames {
  import opened Wrappers
  import opened Seqs

  /** A feature table: column labels and rows of cell values. */
  datatype Frame = Frame(columns: seq<string>, rows: seq<seq<real>>)

  /** Every row has one cell per column. */
  predicate Rectangular(f: Frame) {
    forall i :: 0 <= i < |f.rows| ==> |f.rows[i]| == |f.columns|
  }

  /** A rectangular table whose column labels are unique. */
  predicate WellFormed(f: Frame) {
    Rectangular(f) && Distinct(f.columns)
  }

  /** `dst` has the rows of `src`, one for one, and each cell of `dst` holds
      the value `src` has in the same row under the same column label. */
  predicate Carries(src: Frame, dst: Frame) {
    && |dst.rows| == |src.rows|
    && Rectangular(dst)
    && forall i, k, c ::
         0 <= i < |dst.rows| && 0 <= k < |dst.columns| && 0 <= c < |src.columns|
         && c < |src.rows[i]| && k < |dst.rows[i]| && dst.columns[k] == src.columns[c]
         ==> dst.rows[i][k] == src.rows[i][c]
  }

  /** The first position of `x` in `s`. */
  function IndexOf<T(==)>(s: seq<T>, x: T): (r: Option<nat>)
    ensures r.None? <==> x !in s
    ensures r.Some? ==> r.value < |s| && s[r.value] == x
  {
    if |s| == 0 then None
    else if s[0] == x then Some(0)
    else match IndexOf(s[1..], x)
      case None => None
      case Some(i) => Some(i + 1)
  }

  /** The column position of each label in `names`, or `None` when one of
      them is not a column. */
  function ColumnIndices(columns: seq<string>, names: seq<string>): (r: Option<seq<nat>>)
    ensures r.Some? <==> forall j :: 0 <= j < |names| ==> names[j] in columns
    ensures r.Some? ==> |r.value| == |names| && InRange(r.value, |columns|)
    ensures r.Some? ==> forall j :: 0 <= j < |names| ==> columns[r.value[j]] == names[j]
  {
    if |names| == 0 then Some([])
    else match IndexOf(columns, names[0])
      case None => None
      case Some(c) =>
        match ColumnIndices(columns, names[1..])
        case None => None
        case Some(rest) => Some([c] + rest)
  }

  /** Keeps the columns at positions `ix`, in that order, in every row. */
  function Project(f: Frame, ix: seq<nat>): Frame
    requires Rectangular(f) && InRange(ix, |f.columns|)
  {
    Frame(Gather(f.columns, ix),
          seq(|f.rows|, i requires 0 <= i < |f.rows| => Gather(f.rows[i], ix)))
  }

  /** Projecting onto column positions carries every cell along with its
      label. */
  lemma ProjectCarries(f: Frame, ix: seq<nat>)
    requires WellFormed(f) && InRange(ix, |f.columns|)
    ensures Carries(f, Project(f, ix))
  {
    var g := Project(f, ix);
    forall i, k, c |
      0 <= i < |g.rows| && 0 <= k < |g.columns| && 0 <= c < |f.columns|
      && c < |f.rows[i]| && k < |g.rows[i]| && g.columns[k] == f.columns[c]
      ensures g.rows[i][k] == f.rows[i][c]
    {
      assert f.columns[ix[k]] == f.columns[c];
    }
  }

  /** `f.loc[:, names]`: the columns labelled `names`, in the order of
      `names`, for every row; `None` when a label is missing. */
  function SelectColumns(f: Frame, names: seq<string>): (r: Option<Frame>)
    requires WellFormed(f)
    ensures r.Some? <==> forall j :: 0 <= j < |names| ==> names[j] in f.columns
    ensures r.Some? ==> r.value.columns == names && Carries(f, r.value)
    ensures r.Some? && Distinct(names) ==> WellFormed(r.value)
  {
    match ColumnIndices(f.columns, names)
    case None => None
    case Some(ix) =>
      ProjectCarries(f, ix);
      assert Gather(f.columns, ix) == names;
      Some(Project(f, ix))
  }

  /** The labels of `columns` that are not in `names`, in order. */
  function Without(columns: seq<string>, names: seq<string>): seq<string> {
    if |columns| == 0 then []
    else
      var last := columns[|columns| - 1];
      Without(columns[..|columns| - 1], names) + (if last in names then [] else [last])
  }

  /** Marks the columns `drop` keeps. */
  function KeepMask(columns: seq<string>, names: seq<string>): (m: seq<bool>)
    ensures |m| == |columns|
    ensures forall c :: 0 <= c < |columns| ==> (m[c] <==> columns[c] !in names)
  {
    seq(|columns|, c requires 0 <= c < |columns| => columns[c] !in names)
  }

  /** Gathering the kept positions lists exactly the labels `Without`
      keeps, in the same order. */
  lemma {:induction false} KeptColumns(columns: seq<string>, names: seq<string>)
    ensures Gather(columns, Positions(KeepMask(columns, names))) == Without(columns, names)
  {
    if |columns| > 0 {
      var n := |columns| - 1;
      var init := columns[..n];
      assert KeepMask(columns, names)[..n] == KeepMask(init, names);
      KeptColumns(init, names);
      var p := Positions(KeepMask(init, names));
      assert Gather(columns, p) == Gather(init, p);
      if columns[n] !in names {
        assert Gather(columns, p + [n]) == Gather(columns, p) + [columns[n]];
      }
    }
  }

  /** `Without` distributes over concatenation. */
  lemma {:induction false} WithoutAppend(s: seq<string>, t: seq<string>, names: seq<string>)
    ensures Without(s + t, names) == Without(s, names) + Without(t, names)
    decreases |t|
  {
    if |t| > 0 {
      var n := |t| - 1;
      assert (s + t)[..|s + t| - 1] == s + t[..n];
      assert (s + t)[|s + t| - 1] == t[n];
      WithoutAppend(s, t[..n], names);
    } else {
      assert s + t == s;
    }
  }

  /** `Without` keeps labels that are not in `names` and removes the rest. */
  lemma {:induction false} WithoutKeepsOrDrops(s: seq<string>, names: seq<string>)
    ensures (forall j :: 0 <= j < |s| ==> s[j] !in names) ==> Without(s, names) == s
    ensures (forall j :: 0 <= j < |s| ==> s[j] in names) ==> Without(s, names) == []
  {
    if |s| > 0 {
      WithoutKeepsOrDrops(s[..|s| - 1], names);
      assert s[..|s| - 1] + [s[|s| - 1]] == s;
    }
  }

  /** `f.drop(names, axis=1)`: every column whose label is not in `names`,
      in table order; `None` when a label in `names` is not a column. */
  function DropColumns(f: Frame, names: seq<string>): (r: Option<Frame>)
    requires WellFormed(f)
    ensures r.Some? <==> forall j :: 0 <= j < |names| ==> names[j] in f.columns
    ensures r.Some? ==> Carries(f, r.value) && WellFormed(r.value)
    ensures r.Some? ==> r.value.columns == Without(f.columns, names)
  {
    if exists j :: 0 <= j < |names| && names[j] !in f.columns then None
    else
      var m := KeepMask(f.columns, names);
      var keep := Positions(m);
      KeptColumns(f.columns, names);
      ProjectCarries(f, keep);
      IncreasingIsDistinct(keep);
      GatherDistinct(f.columns, keep);
      var g := Project(f, keep);
      assert forall x :: x in g.columns <==> x in f.columns && x !in names by {
        forall x
          ensures x in g.columns <==> x in f.columns && x !in names
        {
          if x in f.columns && x !in names {
            var c :| 0 <= c < |f.columns| && f.columns[c] == x;
            assert c in keep;
            var k :| 0 <= k < |keep| && keep[k] == c;
            assert g.columns[k] == x;
          }
          if x in g.columns {
            var k :| 0 <= k < |g.columns| && g.columns[k] == x;
            assert keep[k] in keep && m[keep[k]];
            assert f.columns[keep[k]] == x;
          }
        }
      }
      Some(g)
  }

  /** Labels of a repeat-free concatenation are not shared between its two
      halves. */
  lemma {:induction false} HalvesApart(kept: seq<string>, names: seq<string>)
    requires Distinct(kept + names)
    ensures forall j :: 0 <= j < |kept| ==> kept[j] !in names
    ensures forall j :: 0 <= j < |names| ==> names[j] in kept + names
  {
    var all := kept + names;
    forall j | 0 <= j < |kept|
      ensures kept[j] !in names
    {
      assert all[j] == kept[j];
      assert forall m :: 0 <= m < |names| ==> all[|kept| + m] == names[m] && all[j] != all[|kept| + m];
    }
    forall j | 0 <= j < |names|
      ensures names[j] in all
    {
      assert all[|kept| + j] == names[j];
    }
  }

  /** Removing the labels of the second half of a repeat-free
      concatenation leaves the first half. */
  lemma {:induction false} WithoutTrailing(kept: seq<string>, names: seq<string>)
    requires Distinct(kept + names)
    ensures Without(kept + names, names) == kept
  {
    HalvesApart(kept, names);
    WithoutAppend(kept, names, names);
    WithoutKeepsOrDrops(kept, names);
    WithoutKeepsOrDrops(names, names);
    assert kept + [] == kept;
  }

  /** Dropping the trailing columns `names` of a table leaves the leading
      columns, in order, with every cell in place. */
  lemma {:induction false} DropTrailing(f: Frame, kept: seq<string>, names: seq<string>)
    requires WellFormed(f) && f.columns == kept + names
    ensures DropColumns(f, names).Some?
    ensures var g := DropColumns(f, names).value;
      && g.columns == kept && |g.rows| == |f.rows|
      && forall i, j :: 0 <= i < |g.rows| && 0 <= j < |kept| ==>
           |g.rows[i]| == |kept| && g.rows[i][j] == f.rows[i][j]
  {
    HalvesApart(kept, names);
    WithoutTrailing(kept, names);
    var g := DropColumns(f, names).value;
    forall i, j | 0 <= i < |g.rows| && 0 <= j < |kept|
      ensures |g.rows[i]| == |kept| && g.rows[i][j] == f.rows[i][j]
    {
      assert g.columns[j] == f.columns[j];
    }
  }

  /** `f.iloc[ix]`: the rows at positions `ix`, in that order. */
  function TakeRows(f: Frame, ix: seq<nat>): (r: Frame)
    requires InRange(ix, |f.rows|)
    ensures r.columns == f.columns && |r.rows| == |ix|
    ensures forall k :: 0 <= k < |ix| ==> r.rows[k] == f.rows[ix[k]]
  {
    Frame(f.columns, Gather(f.rows, ix))
  }
}
