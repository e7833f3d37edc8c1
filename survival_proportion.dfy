/**
 * The proportion of contributors who opened at least `n` pull requests,
 * one bar per project
 * (scripts/survivor_analysis/plot_proportion_survival_at_n_pullrequest.py).
 * The file loop appends one label and one proportion per project; the
 * proportions are then scaled to percentages and both lists are permuted by
 * the order that sorts the percentages.
 */
module SurvivalProportion {
  import opened Wrappers
  import opened Strings
  import opened Tally
  import opened Sorting
  import opened SurvivalCurve

  /** The threshold `n` when `--n-pull-request` is not given. */
  const DefaultThreshold: int := 2

  /** One project directory found by the glob, with the rows of its issue log. */
  datatype ProjectLog = ProjectLog(directory: string, rows: seq<IssueRow>)

  /** The path the glob yields for a project directory. */
  function GlobPath(directory: string): string
  {
    "data" + "/" + ("raw_data" + "/" + (directory + "/" + "issues.tsv"))
  }

  /** `filename.split("/")[1]`, as written; IndexError when the path has no '/'. */
  function LabelAsWritten(path: string): (r: Result<string>)
    ensures r.Ok? <==> |Split(path, "/")| > 1
  {
    var parts := Split(path, "/");
    if |parts| > 1 then Ok(parts[1]) else Err(IndexError)
  }

  /** `filename.split("/")[2]`: the project directory of a path under `data/raw_data/`. */
  function ProjectLabel(path: string): (r: Result<string>)
    ensures r.Ok? <==> |Split(path, "/")| > 2
  {
    var parts := Split(path, "/");
    if |parts| > 2 then Ok(parts[2]) else Err(IndexError)
  }

  /** The first two components of every globbed path are "data" and "raw_data". */
  lemma {:induction false} SplitGlobPath(directory: string)
    ensures Split(GlobPath(directory), "/") == ["data", "raw_data"] + Split(directory + "/" + "issues.tsv", "/")
  {
    var tail := directory + "/" + "issues.tsv";
    assert '/' !in "data" && '/' !in "raw_data";
    SplitAtFirst("data", '/', "raw_data" + "/" + tail);
    SplitAtFirst("raw_data", '/', tail);
  }

  /** The file name of the issue log holds no '/'. */
  lemma {:induction false} FileNameWhole()
    ensures Split("issues.tsv", "/") == ["issues.tsv"]
  {
    assert '/' !in "issues.tsv";
    SplitAtAbsentChar("issues.tsv", '/');
  }

  /** A globbed path splits into its four components. */
  lemma {:induction false} GlobPathComponents(directory: string)
    requires '/' !in directory
    ensures Split(GlobPath(directory), "/") == ["data", "raw_data", directory, "issues.tsv"]
  {
    SplitGlobPath(directory);
    SplitAtFirst(directory, '/', "issues.tsv");
    FileNameWhole();
  }

  /** Every path the glob yields labels its bar "raw_data", whichever project it belongs to. */
  lemma {:induction false} LabelAsWrittenIsConstant(directory: string)
    ensures LabelAsWritten(GlobPath(directory)) == Ok("raw_data")
  {
    SplitGlobPath(directory);
  }

  /** The corrected label is the project directory itself. */
  lemma {:induction false} ProjectLabelIsDirectory(directory: string)
    requires '/' !in directory
    ensures ProjectLabel(GlobPath(directory)) == Ok(directory)
  {
    GlobPathComponents(directory);
  }

  /** Two projects in different directories get different bars. */
  lemma {:induction false} ProjectLabelsDistinguishProjects(d1: string, d2: string)
    requires '/' !in d1 && '/' !in d2 && d1 != d2
    ensures ProjectLabel(GlobPath(d1)) != ProjectLabel(GlobPath(d2))
    ensures LabelAsWritten(GlobPath(d1)) == LabelAsWritten(GlobPath(d2))
  {
    ProjectLabelIsDirectory(d1);
    ProjectLabelIsDirectory(d2);
    LabelAsWrittenIsConstant(d1);
    LabelAsWrittenIsConstant(d2);
  }

  /**
   * `(counts >= n).sum() / len(counts)`; `None` stands for the NaN numpy
   * yields for a project without pull requests.
   */
  function Proportion(counts: seq<nat>, n: int): (r: Option<real>)
    ensures r.None? <==> |counts| == 0
  {
    if |counts| == 0 then None
    else Some(CountAbove(counts, n - 1) as real / |counts| as real)
  }

  /** A proportion is a fraction in [0, 1]. */
  lemma {:induction false} ProportionInUnitInterval(counts: seq<nat>, n: int)
    requires |counts| > 0
    ensures 0.0 <= Proportion(counts, n).value <= 1.0
  {
    FractionBounds(CountAbove(counts, n - 1), |counts|);
  }

  /** With a threshold of at most one, every author with a pull request qualifies. */
  lemma {:induction false} ProportionAllAtLowThreshold(counts: seq<nat>, n: int)
    requires |counts| > 0 && n <= 1
    requires forall k :: 0 <= k < |counts| ==> counts[k] >= 1
    ensures Proportion(counts, n) == Some(1.0)
  {
    CountAboveAllPositive(counts);
    CountAboveMonotone(counts, n - 1, 0);
    assert CountAbove(counts, n - 1) == |counts|;
    FractionWhole(|counts|);
  }

  /** Raising the threshold never raises the proportion. */
  lemma {:induction false} ProportionNonIncreasing(counts: seq<nat>, n1: int, n2: int)
    requires |counts| > 0 && n1 <= n2
    ensures Proportion(counts, n2).value <= Proportion(counts, n1).value
  {
    CountAboveMonotone(counts, n1 - 1, n2 - 1);
    FractionMonotone(CountAbove(counts, n2 - 1), CountAbove(counts, n1 - 1), |counts|);
  }

  /** The comparison is "at least n": an author with exactly `n` pull requests is counted. */
  lemma {:induction false} ProportionCountsThresholdItself(n: nat)
    ensures Proportion([n], n) == Some(1.0)
    ensures Proportion([n], n + 1) == Some(0.0)
  {
    assert [n][..0] == [];
  }

  /**
   * Without `--n-pull-request` the bar of a project with pull requests is
   * full iff every one of its authors opened at least two.
   */
  lemma {:induction false} ProportionAtDefault(counts: seq<nat>)
    requires |counts| > 0
    ensures Proportion(counts, DefaultThreshold) == Some(1.0) <==> forall k :: 0 <= k < |counts| ==> counts[k] >= 2
  {
    CountAboveAllIff(counts, DefaultThreshold - 1);
    FractionIsOneIff(CountAbove(counts, DefaultThreshold - 1), |counts|);
  }

  /** The proportion of one project's log. */
  function ProjectProportion(rows: seq<IssueRow>, n: int): Option<real>
  {
    Proportion(PullRequestCounts(rows), n)
  }

  /**
   * The file loop as written: one label and one proportion per project,
   * appended in step. The label is component 1 of the path, which for every
   * globbed path is "raw_data".
   */
  method CollectProportions(projects: seq<ProjectLog>, n: int) returns (labels: seq<string>, proportions: seq<Option<real>>)
    ensures |labels| == |projects| && |proportions| == |projects|
    ensures forall i :: 0 <= i < |projects| ==> labels[i] == "raw_data"
    ensures forall i :: 0 <= i < |projects| ==> proportions[i] == ProjectProportion(projects[i].rows, n)
  {
    labels, proportions := [], [];
    for i := 0 to |projects|
      invariant |labels| == i && |proportions| == i
      invariant forall k :: 0 <= k < i ==> labels[k] == "raw_data"
      invariant forall k :: 0 <= k < i ==> proportions[k] == ProjectProportion(projects[k].rows, n)
    {
      var path := GlobPath(projects[i].directory);
      LabelAsWrittenIsConstant(projects[i].directory);
      var name := LabelAsWritten(path).value;
      var proportion := ProjectProportion(projects[i].rows, n);
      labels := labels + [name];
      proportions := proportions + [proportion];
    }
  }

  /**
   * The file loop with the corrected label: component 2 of the path, the
   * project directory.
   */
  method CollectProjectProportions(projects: seq<ProjectLog>, n: int) returns (labels: seq<string>, proportions: seq<Option<real>>)
    requires forall i :: 0 <= i < |projects| ==> '/' !in projects[i].directory
    ensures |labels| == |projects| && |proportions| == |projects|
    ensures forall i :: 0 <= i < |projects| ==> labels[i] == projects[i].directory
    ensures forall i :: 0 <= i < |projects| ==> proportions[i] == ProjectProportion(projects[i].rows, n)
  {
    labels, proportions := [], [];
    for i := 0 to |projects|
      invariant |labels| == i && |proportions| == i
      invariant forall k :: 0 <= k < i ==> labels[k] == projects[k].directory
      invariant forall k :: 0 <= k < i ==> proportions[k] == ProjectProportion(projects[k].rows, n)
    {
      var path := GlobPath(projects[i].directory);
      ProjectLabelIsDirectory(projects[i].directory);
      var name := ProjectLabel(path).value;
      var proportion := ProjectProportion(projects[i].rows, n);
      labels := labels + [name];
      proportions := proportions + [proportion];
    }
  }

  /** `np.array(survival_proportion) * 100`; NaN stays NaN. */
  function Percentages(proportions: seq<Option<real>>): (r: seq<Option<real>>)
    ensures |r| == |proportions|
  {
    seq(|proportions|, i requires 0 <= i < |proportions| =>
      if proportions[i].None? then None else Some(100.0 * proportions[i].value))
  }

  /** Scaled proportions are percentages in [0, 100], and missing values stay missing. */
  lemma {:induction false} PercentagesInRange(projects: seq<ProjectLog>, n: int, i: nat)
    requires i < |projects|
    ensures var r := Percentages(seq(|projects|, k requires 0 <= k < |projects| => ProjectProportion(projects[k].rows, n)));
      && (r[i].None? <==> NumPullRequests(projects[i].rows) == 0)
      && (r[i].Some? ==> 0.0 <= r[i].value <= 100.0)
  {
    var rows := projects[i].rows;
    var counts := PullRequestCounts(rows);
    var authors := PullRequestAuthors(rows);
    PullRequestAuthorsLength(rows);
    if |authors| > 0 {
      assert authors[0] in Distinct(authors);
      ProportionInUnitInterval(counts, n);
    }
  }

  /** numpy's order for `argsort`: numbers ascending, NaN after every number. */
  predicate NaNLast(a: Option<real>, b: Option<real>)
  {
    match (a, b)
    case (Some(x), Some(y)) => x <= y
    case (Some(_), None) => true
    case (None, Some(_)) => false
    case (None, None) => true
  }

  lemma {:induction false} NaNLastIsTotalPreorder()
    ensures TotalPreorder(NaNLast)
  {
  }

  /**
   * `idx = np.argsort(survival_proportion)` followed by
   * `survival_proportion[idx]` and `labels[idx]`: both lists permuted by
   * one order, so each bar keeps its own label.
   */
  method OrderBars(labels: seq<string>, values: seq<Option<real>>)
    returns (idx: seq<nat>, sortedLabels: seq<string>, sortedValues: seq<Option<real>>)
    requires |labels| == |values|
    ensures IsPermutation(idx, |values|)
    ensures |sortedLabels| == |values| && |sortedValues| == |values|
    ensures forall i :: 0 <= i < |values| ==>
      idx[i] < |values| && sortedLabels[i] == labels[idx[i]] && sortedValues[i] == values[idx[i]]
    ensures SortedBy(sortedValues, NaNLast)
  {
    NaNLastIsTotalPreorder();
    idx := ArgSort(values, NaNLast);
    sortedLabels := seq(|idx|, i requires 0 <= i < |idx| => labels[idx[i]]);
    sortedValues := seq(|idx|, i requires 0 <= i < |idx| => values[idx[i]]);
  }
}
