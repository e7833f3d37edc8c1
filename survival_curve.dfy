/**
 * The newcomer survival curve of one project
 * (scripts/survivor_analysis/plot_survival_curve_pull_request.py): the
 * pull requests of the issue log are counted per author, and entry `i` of
 * the curve is the fraction of authors who opened more than `i` of them.
 */
module SurvivalCurve {
  import opened Wrappers
  import opened Tally

  /** The ticket type of a pull request in the issue log. */
  const PullRequest := "pull_request"

  /** One row of `issues.tsv` (the columns the survival scripts read). */
  datatype IssueRow = IssueRow(kind: string, authorId: int)

  /** `all_issues[all_issues["type"] == "pull_request"]["author_id"]`, in row order. */
  function PullRequestAuthors(rows: seq<IssueRow>): (r: seq<int>)
    ensures |r| <= |rows|
    decreases |rows|
  {
    if |rows| == 0 then []
    else
      var init := rows[..|rows| - 1];
      var last := rows[|rows| - 1];
      var r := PullRequestAuthors(init);
      if last.kind == PullRequest then r + [last.authorId] else r
  }

  /** The pull request authors are the authors of the pull request rows. */
  lemma {:induction false} PullRequestAuthorsMembers(rows: seq<IssueRow>)
    ensures forall a :: a in PullRequestAuthors(rows) <==>
      exists i :: 0 <= i < |rows| && rows[i].kind == PullRequest && rows[i].authorId == a
    decreases |rows|
  {
    if |rows| > 0 {
      var init := rows[..|rows| - 1];
      PullRequestAuthorsMembers(init);
      assert forall i :: 0 <= i < |init| ==> init[i] == rows[i];
    }
  }

  /** The number of pull request rows of the log. */
  function NumPullRequests(rows: seq<IssueRow>): nat
    decreases |rows|
  {
    if |rows| == 0 then 0
    else NumPullRequests(rows[..|rows| - 1]) + (if rows[|rows| - 1].kind == PullRequest then 1 else 0)
  }

  lemma {:induction false} PullRequestAuthorsLength(rows: seq<IssueRow>)
    ensures |PullRequestAuthors(rows)| == NumPullRequests(rows)
    decreases |rows|
  {
    if |rows| > 0 {
      PullRequestAuthorsLength(rows[..|rows| - 1]);
    }
  }

  /** `np.unique(pull_requests["author_id"], return_counts=True)[1]`. */
  function PullRequestCounts(rows: seq<IssueRow>): seq<nat>
  {
    Counts(PullRequestAuthors(rows))
  }

  /**
   * One count per distinct pull request author; every count is at least one
   * and together they add up to the number of pull requests. Rows of any
   * other type do not enter.
   */
  lemma {:induction false} PullRequestCountsFacts(rows: seq<IssueRow>)
    ensures |PullRequestCounts(rows)| == |set a | a in PullRequestAuthors(rows)|
    ensures forall i :: 0 <= i < |PullRequestCounts(rows)| ==> PullRequestCounts(rows)[i] >= 1
    ensures Sum(PullRequestCounts(rows)) == NumPullRequests(rows)
  {
    var authors := PullRequestAuthors(rows);
    CountsOnePerValue(authors);
    forall i | 0 <= i < |Counts(authors)|
      ensures Counts(authors)[i] >= 1
    {
      CountsPositive(authors, i);
    }
    CountsSum(authors);
    PullRequestAuthorsLength(rows);
  }

  /** The number of counts greater than `i` (`(counts > i).sum()`). */
  function CountAbove(counts: seq<nat>, i: int): (n: nat)
    ensures n <= |counts|
    decreases |counts|
  {
    if |counts| == 0 then 0
    else CountAbove(counts[..|counts| - 1], i) + (if counts[|counts| - 1] > i then 1 else 0)
  }

  /** The largest count (`counts.max()`). */
  function MaxCount(counts: seq<nat>): (m: nat)
    requires |counts| > 0
    ensures m in counts
    ensures forall k :: 0 <= k < |counts| ==> counts[k] <= m
    decreases |counts|
  {
    if |counts| == 1 then counts[0]
    else
      var m := MaxCount(counts[..|counts| - 1]);
      assert forall k :: 0 <= k < |counts| - 1 ==> counts[..|counts| - 1][k] == counts[k];
      if counts[|counts| - 1] > m then counts[|counts| - 1] else m
  }

  /** The survival list: for `i` in `0 .. max`, the fraction of authors with more than `i` pull requests. */
  function Curve(counts: seq<nat>): (r: seq<real>)
    requires |counts| > 0
    ensures |r| == MaxCount(counts) + 1
  {
    seq(MaxCount(counts) + 1, i requires 0 <= i <= MaxCount(counts) =>
      CountAbove(counts, i) as real / |counts| as real)
  }

  /**
   * The survival list of one project's issue log; a log without pull
   * requests fails, as `max()` of an empty array raises ValueError.
   */
  function ProjectCurve(rows: seq<IssueRow>): (r: Result<seq<real>>)
    ensures r.Err? <==> NumPullRequests(rows) == 0
  {
    PullRequestAuthorsLength(rows);
    var authors := PullRequestAuthors(rows);
    if |authors| == 0 then
      Err(ValueError("zero-size array to reduction operation maximum which has no identity"))
    else
      assert authors[0] in Distinct(authors);
      var counts := PullRequestCounts(rows);
      Ok(Curve(counts))
  }

  /** `np.arange(len(survival_data)) + 1`: entry `i` is drawn at abscissa `i + 1`. */
  function PlotPositions(curve: seq<real>): (x: seq<nat>)
    ensures |x| == |curve|
    ensures forall i :: 0 <= i < |x| ==> x[i] == i + 1
    ensures forall i :: 0 <= i < |x| ==> x[i] >= 1
    ensures |x| > 0 ==> x[0] == 1 && x[|x| - 1] == |curve|
  {
    seq(|curve|, i requires 0 <= i < |curve| => i + 1)
  }

  lemma {:induction false} CountAboveAllPositive(counts: seq<nat>)
    requires forall k :: 0 <= k < |counts| ==> counts[k] >= 1
    ensures CountAbove(counts, 0) == |counts|
    decreases |counts|
  {
    if |counts| > 0 {
      CountAboveAllPositive(counts[..|counts| - 1]);
    }
  }

  /** Every author has more than `i` pull requests iff all of them are counted above `i`. */
  lemma {:induction false} CountAboveAllIff(counts: seq<nat>, i: int)
    ensures CountAbove(counts, i) == |counts| <==> forall k :: 0 <= k < |counts| ==> counts[k] > i
    decreases |counts|
  {
    if |counts| > 0 {
      var init := counts[..|counts| - 1];
      CountAboveAllIff(init, i);
      assert forall k :: 0 <= k < |init| ==> init[k] == counts[k];
      if CountAbove(counts, i) == |counts| {
        assert CountAbove(init, i) == |init| && counts[|counts| - 1] > i;
      }
    }
  }

  lemma {:induction false} CountAboveMax(counts: seq<nat>, m: int)
    requires forall k :: 0 <= k < |counts| ==> counts[k] <= m
    ensures CountAbove(counts, m) == 0
    decreases |counts|
  {
    if |counts| > 0 {
      CountAboveMax(counts[..|counts| - 1], m);
    }
  }

  lemma {:induction false} CountAboveMonotone(counts: seq<nat>, i: int, j: int)
    requires i <= j
    ensures CountAbove(counts, j) <= CountAbove(counts, i)
    decreases |counts|
  {
    if |counts| > 0 {
      CountAboveMonotone(counts[..|counts| - 1], i, j);
    }
  }

  lemma {:induction false} FractionBounds(k: nat, n: nat)
    requires 0 < n && k <= n
    ensures 0.0 <= k as real / n as real <= 1.0
  {
  }

  lemma {:induction false} FractionWhole(n: nat)
    requires 0 < n
    ensures n as real / n as real == 1.0
  {
  }

  lemma {:induction false} FractionIsOneIff(k: nat, n: nat)
    requires 0 < n && k <= n
    ensures k as real / n as real == 1.0 <==> k == n
  {
    if k as real / n as real == 1.0 {
      assert k as real == (k as real / n as real) * n as real;
    }
  }

  lemma {:induction false} FractionMonotone(k1: nat, k2: nat, n: nat)
    requires 0 < n && k1 <= k2
    ensures k1 as real / n as real <= k2 as real / n as real
  {
  }

  /** Entry 0 is 1: every counted author opened at least one pull request. */
  lemma {:induction false} CurveStartsAtOne(counts: seq<nat>)
    requires |counts| > 0
    requires forall k :: 0 <= k < |counts| ==> counts[k] >= 1
    ensures Curve(counts)[0] == 1.0
  {
    CountAboveAllPositive(counts);
    assert Curve(counts)[0] == CountAbove(counts, 0) as real / |counts| as real;
    FractionWhole(|counts|);
  }

  /** The last entry is 0: nobody has more pull requests than the maximum. */
  lemma {:induction false} CurveEndsAtZero(counts: seq<nat>)
    requires |counts| > 0
    ensures Curve(counts)[MaxCount(counts)] == 0.0
  {
    var m := MaxCount(counts);
    CountAboveMax(counts, m);
    assert Curve(counts)[m] == CountAbove(counts, m) as real / |counts| as real;
  }

  /** The curve never rises. */
  lemma {:induction false} CurveNonIncreasing(counts: seq<nat>, i: nat, j: nat)
    requires |counts| > 0
    requires i <= j <= MaxCount(counts)
    ensures Curve(counts)[j] <= Curve(counts)[i]
  {
    CountAboveMonotone(counts, i, j);
    FractionMonotone(CountAbove(counts, j), CountAbove(counts, i), |counts|);
  }

  /** Every entry is a fraction in [0, 1]. */
  lemma {:induction false} CurveInUnitInterval(counts: seq<nat>, i: nat)
    requires |counts| > 0
    requires i <= MaxCount(counts)
    ensures 0.0 <= Curve(counts)[i] <= 1.0
  {
    FractionBounds(CountAbove(counts, i), |counts|);
  }

  /**
   * For a project with pull requests: the curve has `max + 1` entries,
   * starts at 1, ends at 0, never rises and stays in [0, 1].
   */
  lemma {:induction false} ProjectCurveFacts(rows: seq<IssueRow>)
    requires NumPullRequests(rows) > 0
    ensures ProjectCurve(rows).Ok?
    ensures var c := ProjectCurve(rows).value;
      && |c| == MaxCount(PullRequestCounts(rows)) + 1
      && c[0] == 1.0
      && c[|c| - 1] == 0.0
      && (forall i, j :: 0 <= i <= j < |c| ==> c[j] <= c[i])
      && (forall i :: 0 <= i < |c| ==> 0.0 <= c[i] <= 1.0)
  {
    var counts := PullRequestCounts(rows);
    PullRequestCountsFacts(rows);
    assert |counts| > 0;
    CurveStartsAtOne(counts);
    CurveEndsAtZero(counts);
    forall i, j | 0 <= i <= j < |Curve(counts)|
      ensures Curve(counts)[j] <= Curve(counts)[i]
    {
      CurveNonIncreasing(counts, i, j);
    }
    forall i | 0 <= i < |Curve(counts)|
      ensures 0.0 <= Curve(counts)[i] <= 1.0
    {
      CurveInUnitInterval(counts, i);
    }
  }
}
