/**
 * The time-course p-value table
 * (scripts/sentiment_analysis/export_supp_timecourse_pvalues.py). Each row
 * label of the model output is split into a project, a year and a
 * contrast; the contrast is translated through a fixed table; the rows are
 * sorted by (project, contrast, year), those three values become the row
 * labels, and the significance marks and column names are added as in the
 * supplementary table.
 */
module TimecoursePValues {
  import opened Wrappers
  import opened Strings
  import opened Sorting
  import opened PValueTables
  import Tally

  /** The three columns the script adds and then moves into the index. */
  const KeyColumns := ["Project", "Year", "Contrast"]

  /** `i.split(":")[2][:-4]`: the third ':'-field without its last four characters. */
  function ProjectOf(text: string): (r: Result<string>)
    ensures r.Ok? <==> |Split(text, ":")| > 2
    ensures r.Err? ==> r.error == IndexError
  {
    var parts := Split(text, ":");
    if |parts| > 2 then Ok(DropLast(parts[2], 4)) else Err(IndexError)
  }

  /**
   * `int(i.split("year")[1].split("-")[0])`: the integer read from the part
   * after the first "year", up to any second "year", cut at its first '-'.
   */
  function YearOf(text: string): (r: Result<int>)
    ensures |Split(text, "year")| < 2 ==> r == Err(IndexError)
    ensures |Split(text, "year")| >= 2 ==>
      (r.Ok? <==> ParseInt(Split(Split(text, "year")[1], "-")[0]).Some?)
  {
    var parts := Split(text, "year");
    if |parts| < 2 then Err(IndexError)
    else
      var field := Split(parts[1], "-")[0];
      var n := ParseInt(field);
      if n.None? then Err(ValueError("invalid literal for int() with base 10")) else Ok(n.value)
  }

  /** `":".join(i.split(":")[:2])`: the first two ':'-fields. */
  function ContrastOf(text: string): string
  {
    var parts := Split(text, ":");
    Join(if |parts| > 2 then parts[..2] else parts, ":")
  }

  /** `contrast_names`: the LaTeX heading of each of the eight contrasts. */
  const ContrastNames: map<string, string> := map[
    "issue_post:member" := @"$\text{post:issue} \times \text{member}$",
    "issue_post:nonmember" := @"$\text{post:issue} \times \text{nonmember}$",
    "pr_post:member" := @"$\text{post:PR} \times \text{member}$",
    "pr_post:nonmember" := @"$\text{post:PR} \times \text{nonmember}$",
    "issue_reply:member" := @"$\text{comment:issue} \times \text{member}$",
    "issue_reply:nonmember" := @"$\text{comment:issue} \times \text{nonmember}$",
    "pr_reply:member" := @"$\text{comment:PR} \times \text{member}$",
    "pr_reply:nonmember" := @"$\text{comment:PR} \times \text{nonmember}$"
  ]

  /** `contrast_names[c]`: KeyError for any contrast outside the table. */
  function ContrastName(c: string): (r: Result<string>)
    ensures r.Ok? <==> c in ContrastNames
    ensures r.Ok? ==> r.value == ContrastNames[c]
    ensures r.Err? ==> r.error == KeyError(c)
  {
    if c in ContrastNames then Ok(ContrastNames[c]) else Err(KeyError(c))
  }

  /** The heading of the contrast of one label. */
  function ContrastHeading(text: string): Result<string>
  {
    ContrastName(ContrastOf(text))
  }

  /** The sort key of a row: project, contrast heading, year. */
  datatype RowKey = RowKey(project: string, contrast: string, year: int)

  /**
   * The three lists of lines 20-24 and 40, built one after the other: the
   * first failing project fails first, then the first failing year, then
   * the first contrast missing from the table.
   */
  function RowKeys(labels: seq<string>): (r: Result<seq<RowKey>>)
    ensures r.Ok? <==> forall i :: 0 <= i < |labels| ==>
      ProjectOf(labels[i]).Ok? && YearOf(labels[i]).Ok? && ContrastHeading(labels[i]).Ok?
    ensures r.Ok? ==> |r.value| == |labels| && forall i :: 0 <= i < |labels| ==>
      r.value[i] == RowKey(ProjectOf(labels[i]).value, ContrastHeading(labels[i]).value, YearOf(labels[i]).value)
    ensures (exists i :: 0 <= i < |labels| && ProjectOf(labels[i]).Err?) ==> r == Err(IndexError)
  {
    var projects := Collect(labels, ProjectOf);
    var years := Collect(labels, YearOf);
    var names := Collect(labels, ContrastHeading);
    if projects.Err? then Err(projects.error)
    else if years.Err? then Err(years.error)
    else if names.Err? then Err(names.error)
    else Ok(seq(|labels|, i requires 0 <= i < |labels| =>
      RowKey(projects.value[i], names.value[i], years.value[i])))
  }

  /** The project and the contrast are read off the ':'-fields of the label. */
  lemma {:induction false} FieldsOfLabel(a: string, b: string, c: string)
    requires ':' !in a && ':' !in b
    ensures ProjectOf(a + ":" + b + ":" + c) == Ok(DropLast(Split(c, ":")[0], 4))
    ensures ContrastOf(a + ":" + b + ":" + c) == a + ":" + b
  {
    var parts := LeadingFields(a, b, c);
    assert parts[..2] == [a, b];
    JoinTwo(a, b);
  }

  lemma {:induction false} LeadingFields(a: string, b: string, c: string) returns (parts: seq<string>)
    requires ':' !in a && ':' !in b
    ensures parts == Split(a + ":" + b + ":" + c, ":")
    ensures parts == [a, b] + Split(c, ":")
  {
    var t := b + ":" + c;
    assert a + ":" + b + ":" + c == a + [':'] + t;
    assert t == b + [':'] + c;
    SplitAtFirst(a, ':', t);
    SplitAtFirst(b, ':', c);
    parts := Split(a + ":" + b + ":" + c, ":");
  }

  lemma {:induction false} JoinTwo(a: string, b: string)
    ensures Join([a, b], ":") == a + ":" + b
  {
    assert [a, b][1..] == [b];
  }

  /**
   * The year is the decimal number that follows the only "year" of the
   * label, up to the next '-'.
   */
  lemma {:induction false} YearOfLabel(a: string, y: nat, rest: string)
    requires !Contains(a + "yea", "year") && 'y' !in rest
    ensures YearOf(a + "year" + NatToString(y) + "-" + rest) == Ok(y)
  {
    var digits := NatToString(y);
    var tail := digits + "-" + rest;
    assert a + "year" + digits + "-" + rest == a + "year" + tail;
    assert "year"[..3] == "yea";
    SplitAtFirstOccurrence(a, "year", tail);
    YearFieldIsDigits(y, rest);
  }

  lemma {:induction false} YearFieldIsDigits(y: nat, rest: string)
    requires 'y' !in rest
    ensures var tail := NatToString(y) + "-" + rest;
      Split(tail, "year") == [tail] && Split(tail, "-")[0] == NatToString(y)
      && ParseInt(NatToString(y)) == Some(y)
  {
    var digits := NatToString(y);
    var tail := digits + "-" + rest;
    NoOtherCharInDigits('y', y);
    NoOtherCharInDigits('-', y);
    assert 'y' !in tail;
    FirstCharAbsent(tail, "year");
    SplitWithoutSeparator(tail, "year");
    SplitAtFirst(digits, '-', rest);
    ParseNatToString(y);
  }

  /** Lexicographic order on (project, contrast, year), strings in Python's order. */
  predicate KeyLeq(x: RowKey, y: RowKey)
  {
    || Less(x.project, y.project)
    || (x.project == y.project && Less(x.contrast, y.contrast))
    || (x.project == y.project && x.contrast == y.contrast && x.year <= y.year)
  }

  lemma {:induction false} KeyLeqIsTotalPreorder()
    ensures TotalPreorder(KeyLeq)
  {
    forall x: RowKey, y: RowKey
      ensures KeyLeq(x, y) || KeyLeq(y, x)
    {
      LessTrichotomy(x.project, y.project);
      LessTrichotomy(x.contrast, y.contrast);
    }
    forall x: RowKey, y: RowKey, z: RowKey | KeyLeq(x, y) && KeyLeq(y, z)
      ensures KeyLeq(x, z)
    {
      if Less(x.project, y.project) && Less(y.project, z.project) {
        LessTransitive(x.project, y.project, z.project);
      }
      if Less(x.contrast, y.contrast) && Less(y.contrast, z.contrast) {
        LessTransitive(x.contrast, y.contrast, z.contrast);
      }
    }
  }

  /** One row of the table with its sort key. */
  datatype KeyedRow = KeyedRow(key: RowKey, cells: seq<Cell>)

  predicate RowLeq(x: KeyedRow, y: KeyedRow)
  {
    KeyLeq(x.key, y.key)
  }

  /** The single-level text label of every row. */
  function RowLabels(index: seq<seq<Label>>): (r: seq<string>)
    requires forall i :: 0 <= i < |index| ==> |index[i]| == 1 && index[i][0].Name?
    ensures |r| == |index| && forall i :: 0 <= i < |index| ==> index[i] == [Name(r[i])]
  {
    seq(|index|, i requires 0 <= i < |index| => index[i][0].name)
  }

  /** Pairs every key with its row. */
  function KeyRows(keys: seq<RowKey>, cells: seq<seq<Cell>>): (r: seq<KeyedRow>)
    requires |keys| == |cells|
    ensures |r| == |keys| && forall i :: 0 <= i < |keys| ==> r[i] == KeyedRow(keys[i], cells[i])
  {
    seq(|keys|, i requires 0 <= i < |keys| => KeyedRow(keys[i], cells[i]))
  }

  /** `MultiIndex.from_frame(pvalues[["Project", "Contrast", "Year"]])`. */
  function KeyLabels(rows: seq<KeyedRow>): (r: seq<seq<Label>>)
    ensures |r| == |rows| && forall i :: 0 <= i < |rows| ==>
      r[i] == [Name(rows[i].key.project), Name(rows[i].key.contrast), Year(rows[i].key.year)]
  {
    seq(|rows|, i requires 0 <= i < |rows| =>
      [Name(rows[i].key.project), Name(rows[i].key.contrast), Year(rows[i].key.year)])
  }

  /** The cells of the rows, in their order. */
  function RowCells(rows: seq<KeyedRow>): (r: seq<seq<Cell>>)
    ensures |r| == |rows| && forall i :: 0 <= i < |rows| ==> r[i] == rows[i].cells
  {
    seq(|rows|, i requires 0 <= i < |rows| => rows[i].cells)
  }

  /**
   * A key paired with the row's input position, ordered by the key and,
   * among equal keys, by the position: a stable sort by key is a sort by
   * this order.
   */
  predicate TaggedLeq(x: (RowKey, nat), y: (RowKey, nat))
  {
    KeyLeq(x.0, y.0) && (KeyLeq(y.0, x.0) ==> x.1 <= y.1)
  }

  lemma {:induction false} TaggedLeqIsTotalPreorder()
    ensures TotalPreorder(TaggedLeq)
  {
    KeyLeqIsTotalPreorder();
    forall x: (RowKey, nat), y: (RowKey, nat), z: (RowKey, nat) | TaggedLeq(x, y) && TaggedLeq(y, z)
      ensures TaggedLeq(x, z)
    {
      assert KeyLeq(x.0, z.0);
      if KeyLeq(z.0, x.0) {
        assert KeyLeq(y.0, x.0) && KeyLeq(z.0, y.0);
      }
    }
  }

  /**
   * `sorted` is `rows` sorted stably by key: row `i` of `sorted` is input
   * row `order[i]`, keys never decrease, and rows with equal keys keep
   * their input order.
   */
  ghost predicate StablySorted(rows: seq<KeyedRow>, order: seq<nat>, sorted: seq<KeyedRow>)
  {
    && IsPermutation(order, |rows|)
    && |sorted| == |rows|
    && (forall i :: 0 <= i < |rows| ==> order[i] < |rows| && sorted[i] == rows[order[i]])
    && SortedBy(sorted, RowLeq)
    && (forall i, j :: 0 <= i < j < |sorted| && sorted[i].key == sorted[j].key ==> order[i] < order[j])
  }

  /** `sorted` is a stable sort of `rows` by key. */
  ghost predicate IsStableSort(rows: seq<KeyedRow>, sorted: seq<KeyedRow>)
  {
    exists order :: StablySorted(rows, order, sorted)
  }

  /** Rows picked by a permutation of their positions are the same rows. */
  lemma {:induction false} PermutedRowsSameBag(rows: seq<KeyedRow>, order: seq<nat>, sorted: seq<KeyedRow>)
    requires IsPermutation(order, |rows|) && |sorted| == |rows|
    requires forall i :: 0 <= i < |rows| ==> order[i] < |rows| && sorted[i] == rows[order[i]]
    ensures multiset(sorted) == multiset(rows)
  {
    if |rows| > 0 {
      var at := (p: nat) => if p < |rows| then rows[p] else rows[0];
      Tally.MapPermutation(order, Range(|rows|), at);
      assert sorted == Tally.Map(order, at);
      assert rows == Tally.Map(Range(|rows|), at);
    }
  }

  /**
   * `pvalues.sort_values(by=["Project", "Contrast", "Year"])`: the keyed
   * rows rearranged into (project, contrast, year) order. Sorting by
   * several columns, pandas uses a lexicographic sort, which keeps rows
   * with equal keys in their input order.
   */
  method SortRows(rows: seq<KeyedRow>) returns (sorted: seq<KeyedRow>, order: seq<nat>)
    ensures StablySorted(rows, order, sorted)
    ensures multiset(sorted) == multiset(rows)
  {
    var tagged: seq<(RowKey, nat)> := seq(|rows|, i requires 0 <= i < |rows| => (rows[i].key, i));
    TaggedLeqIsTotalPreorder();
    KeyLeqIsTotalPreorder();
    order := ArgSort(tagged, TaggedLeq);
    sorted := seq(|rows|, i requires 0 <= i < |rows| => rows[order[i]]);
    PermutationFacts(order, |rows|);
    forall i, j | 0 <= i < j < |sorted|
      ensures RowLeq(sorted[i], sorted[j])
      ensures sorted[i].key == sorted[j].key ==> order[i] < order[j]
    {
      assert TaggedLeq(tagged[order[i]], tagged[order[j]]);
    }
    PermutedRowsSameBag(rows, order, sorted);
  }

  /** Appending the marks as a new last column extends every row by its mark. */
  lemma {:induction false} MarkedRows(columns: seq<string>, rows: seq<KeyedRow>, p: seq<Option<real>>)
    requires SigColumn !in columns && Rectangular(RowCells(rows), |columns|) && |p| == |rows|
    ensures forall i :: 0 <= i < |rows| ==>
      WithColumnCells(columns, RowCells(rows), SigColumn, TextCells(Marks(p)))[i] == rows[i].cells + [Text(Stars(p[i]))]
  {
  }

  /**
   * Lines 19-45 up to the new index: the keys parsed from the row labels,
   * and the keyed rows in (project, contrast, year) order.
   */
  method OrderRows(index: seq<seq<Label>>, cells: seq<seq<Cell>>, width: nat) returns (r: Result<seq<KeyedRow>>)
    requires |index| == |cells| && Rectangular(cells, width)
    requires forall i :: 0 <= i < |index| ==> |index[i]| == 1 && index[i][0].Name?
    ensures var keys := RowKeys(RowLabels(index));
      && (r.Ok? <==> keys.Ok?)
      && (keys.Err? ==> r == Err(keys.error))
      && (keys.Ok? ==> multiset(r.value) == multiset(KeyRows(keys.value, cells)) && SortedBy(r.value, RowLeq))
      && (keys.Ok? ==> IsStableSort(KeyRows(keys.value, cells), r.value))
    ensures r.Ok? ==> |r.value| == |cells| && Rectangular(RowCells(r.value), width)
  {
    var labels := RowLabels(index);
    var keys := RowKeys(labels);
    if keys.Err? {
      return Err(keys.error);
    }
    var keyed := KeyRows(keys.value, cells);
    var ordered, order := SortRows(keyed);
    assert StablySorted(keyed, order, ordered);
    r := Ok(ordered);
  }

  /**
   * Lines 19-53: parse the labels, sort the rows, move project, contrast
   * and year into the index, add the marks and rename the columns.
   * `ordered` is the table between the sort and the marks; when the input
   * has no "Sig." column of its own, each exported row is its sorted row
   * followed by its mark.
   */
  method ExportTimecourse(f: Frame) returns (o: Outcome, ordered: seq<KeyedRow>)
    requires f.Valid()
    requires forall i :: 0 <= i < |f.index| ==> |f.index[i]| == 1 && f.index[i][0].Name?
    requires forall k :: 0 <= k < |KeyColumns| ==> KeyColumns[k] !in f.columns
    modifies f
    ensures f.Valid()
    ensures RowKeys(RowLabels(old(f.index))).Ok? ==>
      |ordered| == |old(f.cells)| && Rectangular(RowCells(ordered), |old(f.columns)|)
    ensures var keys := RowKeys(RowLabels(old(f.index)));
      && (keys.Err? ==> o == Fail(keys.error))
      && (keys.Ok? ==> multiset(ordered) == multiset(KeyRows(keys.value, old(f.cells))) && SortedBy(ordered, RowLeq))
      && (keys.Ok? ==> IsStableSort(KeyRows(keys.value, old(f.cells)), ordered))
      && (o.Pass? <==> (keys.Ok? && PValues(old(f.columns), RowCells(ordered)).Ok?
                        && |WithColumnName(old(f.columns), SigColumn)| == |TableColumns|))
    ensures o.Pass? ==> f.index == KeyLabels(ordered) && f.columns == TableColumns
    ensures o.Pass? && SigColumn !in old(f.columns) ==>
      var p := PValues(old(f.columns), RowCells(ordered)).value;
      |f.cells| == |ordered| && forall i :: 0 <= i < |ordered| ==> f.cells[i] == ordered[i].cells + [Text(Stars(p[i]))]
  {
    ghost var columns0 := f.columns;
    var rows := OrderRows(f.index, f.cells, |f.columns|);
    if rows.Err? {
      return Fail(rows.error), [];
    }
    ordered := rows.value;
    f.index, f.cells := KeyLabels(ordered), RowCells(ordered);
    o := AddSignificance(f);
    if o.Fail? {
      return;
    }
    o := RenameColumns(f, TableColumns);
    if o.Pass? && SigColumn !in columns0 {
      MarkedRows(columns0, ordered, PValues(columns0, RowCells(ordered)).value);
    }
  }
}
