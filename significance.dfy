/**
 * The p-value tables of the sentiment models
 * (scripts/sentiment_analysis/export_supp_tables_pvalues.py, and the same
 * steps in export_supp_timecourse_pvalues.py). A table read from a
 * whitespace-separated model output is a frame: row labels, named columns
 * and one cell per row and column. A "Sig." column is first set to "" and
 * then overwritten four times, row by row, with a stronger mark wherever the
 * adjusted p-value is below a smaller threshold; the row labels are
 * replaced, the "model" column is dropped and the remaining four columns
 * are renamed.
 */
module PValueTables {
  import opened Wrappers

  /** One cell of a frame: a number (`None` is NaN) or a piece of text. */
  datatype Cell = Number(value: Option<real>) | Text(text: string)

  /** One level of a row label: text, or the integer year of the time-course table. */
  datatype Label = Name(name: string) | Year(year: int)

  /** The outcome of a step that changes a frame in place or raises. */
  datatype Outcome = Pass | Fail(error: Error)

  /** The column compared against the thresholds. */
  const PColumn := "p_val_adjusted"

  /** The column that receives the significance marks. */
  const SigColumn := "Sig."

  /** The column the supplementary table drops. */
  const ModelColumn := "model"

  /** The four column headers of the exported tables. */
  const TableColumns := ["t-stat", "p-val.", "p-val adj.", "sig."]

  /** The four `.loc` assignments in the order they run: threshold and mark. */
  const Thresholds: seq<(real, string)> := [(0.1, "."), (0.05, "*"), (0.01, "**"), (0.001, "***")]

  /** The names in a sequence are pairwise distinct (`read_csv` renames duplicate headers). */
  predicate DistinctNames(columns: seq<string>)
  {
    forall a, b :: 0 <= a < b < |columns| ==> columns[a] != columns[b]
  }

  /** Every row has one cell per column. */
  predicate Rectangular(cells: seq<seq<Cell>>, width: nat)
  {
    forall i :: 0 <= i < |cells| ==> |cells[i]| == width
  }

  /** The position of a column, `None` when there is no column of that name. */
  function ColumnIndex(columns: seq<string>, name: string): (r: Option<nat>)
    ensures r.None? <==> name !in columns
    ensures r.Some? ==> r.value < |columns| && columns[r.value] == name
    ensures r.Some? ==> forall k :: 0 <= k < r.value ==> columns[k] != name
    decreases |columns|
  {
    if |columns| == 0 then None
    else if columns[0] == name then Some(0)
    else
      var r := ColumnIndex(columns[1..], name);
      if r.None? then None else Some(r.value + 1)
  }

  /**
   * The significance mark of one adjusted p-value, all comparisons strict:
   * "***" below 0.001, "**" below 0.01, "*" below 0.05, "." below 0.1,
   * and "" otherwise. NaN compares false with every threshold.
   */
  function Stars(p: Option<real>): string
  {
    if p.None? then ""
    else if p.value < 0.001 then "***"
    else if p.value < 0.01 then "**"
    else if p.value < 0.05 then "*"
    else if p.value < 0.1 then "."
    else ""
  }

  /** The mark a row holds after the first `k` assignments: that of the last one whose test it passed. */
  function Overwritten(p: Option<real>, k: nat): string
    requires k <= |Thresholds|
  {
    if k == 0 then ""
    else if p.Some? && p.value < Thresholds[k - 1].0 then Thresholds[k - 1].1
    else Overwritten(p, k - 1)
  }

  /** Each assignment tests a smaller threshold, so the last mark written is the one-shot classification. */
  lemma {:induction false} OverwritesAreOneShot(p: Option<real>)
    ensures Overwritten(p, |Thresholds|) == Stars(p)
  {
    assert Overwritten(p, 0) == "";
    assert Overwritten(p, 1) == if p.Some? && p.value < 0.1 then "." else "";
    assert Overwritten(p, 2) == if p.Some? && p.value < 0.05 then "*" else Overwritten(p, 1);
    assert Overwritten(p, 3) == if p.Some? && p.value < 0.01 then "**" else Overwritten(p, 2);
  }

  /** The number of marks a label stands for: "" 0, "." 1, "*" 2, "**" 3, "***" 4. */
  function Strength(mark: string): nat
  {
    if mark == "***" then 4
    else if mark == "**" then 3
    else if mark == "*" then 2
    else if mark == "." then 1
    else 0
  }

  /** The number of thresholds among the first `k` that `v` is strictly below. */
  function ThresholdsPassed(v: real, k: nat): (n: nat)
    requires k <= |Thresholds|
    ensures n <= k
  {
    if k == 0 then 0
    else ThresholdsPassed(v, k - 1) + (if v < Thresholds[k - 1].0 then 1 else 0)
  }

  /** The strength of a mark is the number of thresholds the p-value passes. */
  lemma {:induction false} StrengthCountsThresholds(v: real)
    ensures Strength(Stars(Some(v))) == ThresholdsPassed(v, |Thresholds|)
  {
    assert ThresholdsPassed(v, 1) == if v < 0.1 then 1 else 0;
    assert ThresholdsPassed(v, 2) == ThresholdsPassed(v, 1) + if v < 0.05 then 1 else 0;
    assert ThresholdsPassed(v, 3) == ThresholdsPassed(v, 2) + if v < 0.01 then 1 else 0;
    assert ThresholdsPassed(v, 4) == ThresholdsPassed(v, 3) + if v < 0.001 then 1 else 0;
  }

  lemma {:induction false} ThresholdsPassedMonotone(v: real, w: real, k: nat)
    requires v <= w && k <= |Thresholds|
    ensures ThresholdsPassed(w, k) <= ThresholdsPassed(v, k)
  {
    if k > 0 {
      ThresholdsPassedMonotone(v, w, k - 1);
    }
  }

  /** A smaller p-value never gets fewer marks. */
  lemma {:induction false} StarsMonotone(v: real, w: real)
    requires v <= w
    ensures Strength(Stars(Some(w))) <= Strength(Stars(Some(v)))
  {
    StrengthCountsThresholds(v);
    StrengthCountsThresholds(w);
    ThresholdsPassedMonotone(v, w, |Thresholds|);
  }

  /** A p-value equal to a threshold gets the weaker mark, and NaN gets none. */
  lemma {:induction false} BoundariesGetTheWeakerMark()
    ensures Stars(Some(0.1)) == "" && Stars(Some(0.05)) == "."
    ensures Stars(Some(0.01)) == "*" && Stars(Some(0.001)) == "**"
    ensures Stars(None) == ""
  {
  }

  /**
   * The adjusted p-values of every row, as `pvalues["p_val_adjusted"]`
   * yields them: KeyError without that column, TypeError when the column
   * holds text (a `<` between a string and a float).
   */
  function PValues(columns: seq<string>, cells: seq<seq<Cell>>): (r: Result<seq<Option<real>>>)
    requires Rectangular(cells, |columns|)
    ensures r.Err? <==> (PColumn !in columns ||
      exists i :: 0 <= i < |cells| && cells[i][ColumnIndex(columns, PColumn).value].Text?)
    ensures r.Err? && PColumn !in columns ==> r.error == KeyError(PColumn)
    ensures r.Err? && PColumn in columns ==> r.error == TypeError
    ensures r.Ok? ==> |r.value| == |cells|
    ensures r.Ok? ==> forall i :: 0 <= i < |cells| ==>
      cells[i][ColumnIndex(columns, PColumn).value] == Number(r.value[i])
  {
    var j := ColumnIndex(columns, PColumn);
    if j.None? then Err(KeyError(PColumn))
    else if exists i :: 0 <= i < |cells| && cells[i][j.value].Text? then Err(TypeError)
    else Ok(seq(|cells|, i requires 0 <= i < |cells| => cells[i][j.value].value))
  }

  /** The column names after `df[name] = ...`: unchanged when the column exists, else `name` is appended. */
  function WithColumnName(columns: seq<string>, name: string): (r: seq<string>)
    ensures name in r
    ensures DistinctNames(columns) ==> DistinctNames(r)
    ensures |r| == if name in columns then |columns| else |columns| + 1
    ensures forall k :: 0 <= k < |columns| ==> r[k] == columns[k]
  {
    if name in columns then columns else columns + [name]
  }

  /** The cells after `df[name] = values`: the named column replaced, or `values` appended as a new column. */
  function WithColumnCells(columns: seq<string>, cells: seq<seq<Cell>>, name: string, values: seq<Cell>): (r: seq<seq<Cell>>)
    requires Rectangular(cells, |columns|) && |values| == |cells|
    ensures |r| == |cells| && Rectangular(r, |WithColumnName(columns, name)|)
    ensures forall i :: 0 <= i < |cells| ==>
      var k := ColumnIndex(WithColumnName(columns, name), name).value; k < |r[i]| && r[i][k] == values[i]
    ensures forall i, k :: 0 <= i < |cells| && 0 <= k < |columns| && columns[k] != name ==> r[i][k] == cells[i][k]
  {
    var j := ColumnIndex(columns, name);
    seq(|cells|, i requires 0 <= i < |cells| =>
      if j.Some? then cells[i][j.value := values[i]] else cells[i] + [values[i]])
  }

  /** The marks as text cells. */
  function TextCells(marks: seq<string>): (r: seq<Cell>)
    ensures |r| == |marks| && forall i :: 0 <= i < |marks| ==> r[i] == Text(marks[i])
  {
    seq(|marks|, i requires 0 <= i < |marks| => Text(marks[i]))
  }

  /** `s` with its entry at `j` removed. */
  function RemoveAt<T>(s: seq<T>, j: nat): (r: seq<T>)
    requires j < |s|
    ensures |r| == |s| - 1
    ensures forall k :: 0 <= k < j ==> r[k] == s[k]
    ensures forall k :: j <= k < |r| ==> r[k] == s[k + 1]
  {
    s[..j] + s[j + 1..]
  }

  /** A table from a model output file. */
  class Frame {
    var index: seq<seq<Label>>
    var columns: seq<string>
    var cells: seq<seq<Cell>>

    /** One label per row, one cell per row and column, distinct column names. */
    predicate Valid()
      reads this
    {
      |index| == |cells| && Rectangular(cells, |columns|) && DistinctNames(columns)
    }

    constructor (index: seq<seq<Label>>, columns: seq<string>, cells: seq<seq<Cell>>)
      requires |index| == |cells| && Rectangular(cells, |columns|) && DistinctNames(columns)
      ensures Valid()
      ensures this.index == index && this.columns == columns && this.cells == cells
    {
      this.index := index;
      this.columns := columns;
      this.cells := cells;
    }
  }

  /**
   * `pvalues["Sig."] = ""` followed by the four `.loc` assignments: every
   * row's mark is the one-shot classification of its adjusted p-value, and
   * nothing else in the frame changes. When the comparison fails, the model
   * leaves the frame unchanged; the script has already added an empty "Sig."
   * column by then, but it stops, so nothing observes the difference.
   */
  method AddSignificance(f: Frame) returns (o: Outcome)
    requires f.Valid()
    modifies f
    ensures f.Valid()
    ensures var p := PValues(old(f.columns), old(f.cells));
      && (o.Pass? <==> p.Ok?)
      && (p.Err? ==> o == Fail(p.error) && f.index == old(f.index) && f.columns == old(f.columns) && f.cells == old(f.cells))
      && (p.Ok? ==> (f.index == old(f.index) && f.columns == WithColumnName(old(f.columns), SigColumn)
                     && f.cells == WithColumnCells(old(f.columns), old(f.cells), SigColumn, TextCells(Marks(p.value)))))
  {
    var ps := PValues(f.columns, f.cells);
    if ps.Err? {
      return Fail(ps.error);
    }
    var p := ps.value;
    var sig := new string[|p|](_ => "");
    for k := 0 to |Thresholds|
      invariant f.index == old(f.index) && f.columns == old(f.columns) && f.cells == old(f.cells)
      invariant forall i :: 0 <= i < |p| ==> sig[i] == Overwritten(p[i], k)
    {
      var (threshold, mark) := Thresholds[k];
      for i := 0 to |p|
        invariant f.index == old(f.index) && f.columns == old(f.columns) && f.cells == old(f.cells)
        invariant forall r :: 0 <= r < i ==> sig[r] == Overwritten(p[r], k + 1)
        invariant forall r :: i <= r < |p| ==> sig[r] == Overwritten(p[r], k)
      {
        if p[i].Some? && p[i].value < threshold {
          sig[i] := mark;
        }
      }
    }
    forall i | 0 <= i < |p|
      ensures sig[i] == Stars(p[i])
    {
      OverwritesAreOneShot(p[i]);
    }
    assert sig[..] == Marks(p);
    f.cells := WithColumnCells(f.columns, f.cells, SigColumn, TextCells(sig[..]));
    f.columns := WithColumnName(f.columns, SigColumn);
    o := Pass;
  }

  /** The marks of all rows, one-shot. */
  function Marks(p: seq<Option<real>>): (r: seq<string>)
    ensures |r| == |p| && forall i :: 0 <= i < |p| ==> r[i] == Stars(p[i])
  {
    seq(|p|, i requires 0 <= i < |p| => Stars(p[i]))
  }

  /**
   * `column_names.columns = ["", "", ""]` and `pvalues.index =
   * MultiIndex.from_frame(column_names)`: the labels file must have three
   * columns and one row per table row (ValueError otherwise).
   */
  method SetIndex(f: Frame, labels: seq<seq<string>>, width: nat) returns (o: Outcome)
    requires f.Valid()
    requires forall i :: 0 <= i < |labels| ==> |labels[i]| == width
    modifies f
    ensures f.Valid()
    ensures o.Pass? <==> width == 3 && |labels| == |old(f.cells)|
    ensures o.Fail? ==> o.error.ValueError? && f.index == old(f.index)
    ensures o.Pass? ==> f.index == NameLabels(labels)
    ensures f.columns == old(f.columns) && f.cells == old(f.cells)
  {
    if width != 3 {
      return Fail(ValueError("Length mismatch: the labels file does not have three columns"));
    }
    if |labels| != |f.cells| {
      return Fail(ValueError("Length mismatch: the labels file does not have one row per table row"));
    }
    f.index := NameLabels(labels);
    o := Pass;
  }

  /** Text labels as index levels. */
  function NameLabels(labels: seq<seq<string>>): (r: seq<seq<Label>>)
    ensures |r| == |labels|
    ensures forall i :: 0 <= i < |labels| ==> (|r[i]| == |labels[i]| &&
      forall l :: 0 <= l < |labels[i]| ==> r[i][l] == Name(labels[i][l]))
  {
    seq(|labels|, i requires 0 <= i < |labels| =>
      seq(|labels[i]|, l requires 0 <= l < |labels[i]| => Name(labels[i][l])))
  }

  /** `df.drop(name, axis=1)`: KeyError when there is no such column, else that column leaves every row. */
  method DropColumn(f: Frame, name: string) returns (o: Outcome)
    requires f.Valid()
    modifies f
    ensures f.Valid()
    ensures o.Pass? <==> name in old(f.columns)
    ensures o.Fail? ==> (o == Fail(KeyError(name)) && f.columns == old(f.columns) && f.cells == old(f.cells))
    ensures o.Pass? ==> var j := ColumnIndex(old(f.columns), name).value;
      && f.columns == RemoveAt(old(f.columns), j)
      && |f.cells| == |old(f.cells)|
      && forall i :: 0 <= i < |f.cells| ==> f.cells[i] == RemoveAt(old(f.cells[i]), j)
    ensures name !in f.columns
    ensures f.index == old(f.index)
  {
    var j := ColumnIndex(f.columns, name);
    if j.None? {
      return Fail(KeyError(name));
    }
    var c := f.columns;
    var rows := f.cells;
    f.columns := RemoveAt(c, j.value);
    f.cells := seq(|rows|, i requires 0 <= i < |rows| => RemoveAt(rows[i], j.value));
    assert name !in f.columns by {
      forall k | 0 <= k < |f.columns|
        ensures f.columns[k] != name
      {
        if k >= j.value {
          assert f.columns[k] == c[k + 1] && c[j.value] == name;
        }
      }
    }
    o := Pass;
  }

  /** `df.columns = names`: ValueError unless there are exactly as many names as columns. */
  method RenameColumns(f: Frame, names: seq<string>) returns (o: Outcome)
    requires f.Valid() && DistinctNames(names)
    modifies f
    ensures f.Valid()
    ensures o.Pass? <==> |names| == |old(f.columns)|
    ensures o.Fail? ==> o.error.ValueError? && f.columns == old(f.columns)
    ensures o.Pass? ==> f.columns == names
    ensures f.index == old(f.index) && f.cells == old(f.cells)
  {
    if |names| != |f.columns| {
      return Fail(ValueError("Length mismatch: the table does not have as many columns as new names"));
    }
    f.columns := names;
    o := Pass;
  }

  /**
   * Appending the mark column and then dropping "model" leaves each row as
   * it was without its "model" cell, followed by its mark.
   */
  lemma {:induction false} MarkedThenDropped(columns: seq<string>, cells: seq<seq<Cell>>, p: seq<Option<real>>)
    requires Rectangular(cells, |columns|) && |p| == |cells|
    requires ModelColumn in columns && SigColumn !in columns
    ensures ColumnIndex(WithColumnName(columns, SigColumn), ModelColumn) == ColumnIndex(columns, ModelColumn)
    ensures var j := ColumnIndex(columns, ModelColumn).value;
      var marked := WithColumnCells(columns, cells, SigColumn, TextCells(Marks(p)));
      forall i :: 0 <= i < |cells| ==> RemoveAt(marked[i], j) == RemoveAt(cells[i], j) + [Text(Stars(p[i]))]
  {
    var j := ColumnIndex(columns, ModelColumn).value;
    var v := TextCells(Marks(p));
    assert WithColumnName(columns, SigColumn) == columns + [SigColumn];
    ColumnIndexAppend(columns, ModelColumn, SigColumn);
    forall i | 0 <= i < |cells|
      ensures RemoveAt(WithColumnCells(columns, cells, SigColumn, v)[i], j) == RemoveAt(cells[i], j) + [Text(Stars(p[i]))]
    {
      AppendedRow(columns, cells, SigColumn, v, i);
      RemoveAtAppend(cells[i], j, v[i]);
    }
  }

  /** A new column is appended to every row. */
  lemma {:induction false} AppendedRow(columns: seq<string>, cells: seq<seq<Cell>>, name: string, values: seq<Cell>, i: nat)
    requires Rectangular(cells, |columns|) && |values| == |cells|
    requires name !in columns && i < |cells|
    ensures WithColumnCells(columns, cells, name, values)[i] == cells[i] + [values[i]]
  {
  }

  /** Appending a column does not move an existing one. */
  lemma {:induction false} ColumnIndexAppend(columns: seq<string>, name: string, extra: string)
    requires name in columns
    ensures ColumnIndex(columns + [extra], name) == ColumnIndex(columns, name)
  {
    var j := ColumnIndex(columns, name).value;
    var k := ColumnIndex(columns + [extra], name).value;
    assert (columns + [extra])[j] == name;
    assert k <= j;
    assert columns[k] == name;
  }

  lemma {:induction false} RemoveAtAppend<T>(s: seq<T>, j: nat, x: T)
    requires j < |s|
    ensures RemoveAt(s + [x], j) == RemoveAt(s, j) + [x]
  {
    assert (s + [x])[..j] == s[..j];
    assert (s + [x])[j + 1..] == s[j + 1..] + [x];
  }

  /**
   * The supplementary table: marks, three-level row labels, "model"
   * dropped, four renamed columns. When the input has no "Sig." column of
   * its own, each exported row is its input row without the "model" cell
   * followed by its mark.
   */
  method ExportTable(f: Frame, labels: seq<seq<string>>, width: nat) returns (o: Outcome)
    requires f.Valid()
    requires forall i :: 0 <= i < |labels| ==> |labels[i]| == width
    modifies f
    ensures f.Valid()
    ensures var p := PValues(old(f.columns), old(f.cells));
      var marked := WithColumnName(old(f.columns), SigColumn);
      && (p.Err? ==> o == Fail(p.error))
      && (o.Pass? <==> p.Ok? && width == 3 && |labels| == |old(f.cells)|
                       && ModelColumn in old(f.columns) && |marked| == 5)
    ensures o.Pass? ==> f.index == NameLabels(labels) && f.columns == TableColumns && |f.cells| == |old(f.cells)|
    ensures o.Pass? && SigColumn !in old(f.columns) ==>
      var j := ColumnIndex(old(f.columns), ModelColumn).value;
      var p := PValues(old(f.columns), old(f.cells)).value;
      forall i :: 0 <= i < |f.cells| ==> f.cells[i] == RemoveAt(old(f.cells[i]), j) + [Text(Stars(p[i]))]
  {
    ghost var columns0, cells0 := f.columns, f.cells;
    o := AddSignificance(f);
    if o.Fail? {
      return;
    }
    o := SetIndex(f, labels, width);
    if o.Fail? {
      return;
    }
    assert ModelColumn in f.columns <==> ModelColumn in columns0 by {
      assert ModelColumn != SigColumn;
    }
    o := DropColumn(f, ModelColumn);
    if o.Fail? {
      return;
    }
    o := RenameColumns(f, TableColumns);
    if o.Pass? && SigColumn !in columns0 {
      MarkedThenDropped(columns0, cells0, PValues(columns0, cells0).value);
    }
  }
}
