/**
 * The co-contributor figure (scripts/visualizations/figure_supp_cocontributors.py).
 * The authors × projects contribution counts are binarised, the
 * co-contributor matrix `BᵀB` counts for each pair of projects the authors
 * who contribute to both, each row is turned into percentages of the row
 * project's contributors, the diagonal is cleared in place, and the stacked
 * bars start at the row-wise running sums.
 *
 * The contribution counts come from `compute_contributions_per_project`,
 * which is not part of this model: they are an input, one row per author
 * and one column per project.
 */
module CoContributors {

  /** Every author row has one entry per project. */
  predicate Rectangular(m: seq<seq<int>>, projects: nat)
  {
    forall a :: 0 <= a < |m| ==> |m[a]| == projects
  }

  /** `(contributions_per_projects > 0).astype(int)`. */
  function Binarise(m: seq<seq<int>>, projects: nat): (b: seq<seq<int>>)
    requires Rectangular(m, projects)
    ensures |b| == |m| && Rectangular(b, projects)
    ensures forall a, p :: 0 <= a < |m| && 0 <= p < projects ==> (b[a][p] == 1 <==> m[a][p] > 0)
    ensures forall a, p :: 0 <= a < |m| && 0 <= p < projects ==> (b[a][p] == 0 <==> m[a][p] <= 0)
  {
    seq(|m|, a requires 0 <= a < |m| =>
      seq(projects, p requires 0 <= p < projects => if m[a][p] > 0 then 1 else 0))
  }

  /** The number of the first `k` authors who contributed to project `p`. */
  function Contributors(m: seq<seq<int>>, projects: nat, p: nat, k: nat): (n: nat)
    requires Rectangular(m, projects) && p < projects && k <= |m|
    ensures n <= k
  {
    if k == 0 then 0
    else Contributors(m, projects, p, k - 1) + (if m[k - 1][p] > 0 then 1 else 0)
  }

  /** The number of the first `k` authors who contributed to both `p` and `q`. */
  function Shared(m: seq<seq<int>>, projects: nat, p: nat, q: nat, k: nat): (n: nat)
    requires Rectangular(m, projects) && p < projects && q < projects && k <= |m|
    ensures n <= k
  {
    if k == 0 then 0
    else Shared(m, projects, p, q, k - 1) + (if m[k - 1][p] > 0 && m[k - 1][q] > 0 then 1 else 0)
  }

  /** Entry `[p, q]` of `BᵀB` over the first `k` rows of `b`: the dot product of columns `p` and `q`. */
  function ColumnDot(b: seq<seq<int>>, projects: nat, p: nat, q: nat, k: nat): int
    requires Rectangular(b, projects) && p < projects && q < projects && k <= |b|
  {
    if k == 0 then 0
    else ColumnDot(b, projects, p, q, k - 1) + b[k - 1][p] * b[k - 1][q]
  }

  /** `np.dot(B.T, B)`. */
  function CoContributorMatrix(b: seq<seq<int>>, projects: nat): (c: seq<seq<int>>)
    requires Rectangular(b, projects)
    ensures |c| == projects && Rectangular(c, projects)
  {
    seq(projects, p requires 0 <= p < projects =>
      seq(projects, q requires 0 <= q < projects => ColumnDot(b, projects, p, q, |b|)))
  }

  lemma {:induction false} ColumnDotOfBinarised(m: seq<seq<int>>, projects: nat, p: nat, q: nat, k: nat)
    requires Rectangular(m, projects) && p < projects && q < projects && k <= |m|
    ensures ColumnDot(Binarise(m, projects), projects, p, q, k) == Shared(m, projects, p, q, k)
  {
    if k > 0 {
      ColumnDotOfBinarised(m, projects, p, q, k - 1);
    }
  }

  lemma {:induction false} SharedWithItself(m: seq<seq<int>>, projects: nat, p: nat, k: nat)
    requires Rectangular(m, projects) && p < projects && k <= |m|
    ensures Shared(m, projects, p, p, k) == Contributors(m, projects, p, k)
  {
    if k > 0 {
      SharedWithItself(m, projects, p, k - 1);
    }
  }

  lemma {:induction false} SharedSymmetric(m: seq<seq<int>>, projects: nat, p: nat, q: nat, k: nat)
    requires Rectangular(m, projects) && p < projects && q < projects && k <= |m|
    ensures Shared(m, projects, p, q, k) == Shared(m, projects, q, p, k)
  {
    if k > 0 {
      SharedSymmetric(m, projects, p, q, k - 1);
    }
  }

  lemma {:induction false} SharedAtMostContributors(m: seq<seq<int>>, projects: nat, p: nat, q: nat, k: nat)
    requires Rectangular(m, projects) && p < projects && q < projects && k <= |m|
    ensures Shared(m, projects, p, q, k) <= Contributors(m, projects, p, k)
  {
    if k > 0 {
      SharedAtMostContributors(m, projects, p, q, k - 1);
    }
  }

  /**
   * Entry `[p, q]` of the co-contributor matrix is the number of authors
   * who contributed to both projects; the matrix is symmetric, its
   * diagonal holds each project's number of contributors, and no entry
   * exceeds the smaller of the two diagonal entries.
   */
  lemma {:induction false} CoContributorMatrixFacts(m: seq<seq<int>>, projects: nat, p: nat, q: nat)
    requires Rectangular(m, projects) && p < projects && q < projects
    ensures var c := CoContributorMatrix(Binarise(m, projects), projects);
      && c[p][q] == Shared(m, projects, p, q, |m|)
      && c[p][q] == c[q][p]
      && c[p][p] == Contributors(m, projects, p, |m|)
      && c[p][q] <= c[p][p] && c[p][q] <= c[q][q]
  {
    var b := Binarise(m, projects);
    ColumnDotOfBinarised(m, projects, p, q, |m|);
    ColumnDotOfBinarised(m, projects, q, p, |m|);
    ColumnDotOfBinarised(m, projects, p, p, |m|);
    ColumnDotOfBinarised(m, projects, q, q, |m|);
    SharedSymmetric(m, projects, p, q, |m|);
    SharedWithItself(m, projects, p, |m|);
    SharedWithItself(m, projects, q, |m|);
    SharedAtMostContributors(m, projects, p, q, |m|);
    SharedAtMostContributors(m, projects, q, p, |m|);
  }

  /**
   * `(cocontributors / diag * 100).T`: numpy divides column `q` by
   * `C[q, q]`, and the transpose puts that at `[p, q]`.
   */
  function Percentages(c: seq<seq<int>>, n: nat): (d: seq<seq<real>>)
    requires |c| == n && Rectangular(c, n)
    requires forall p :: 0 <= p < n ==> c[p][p] != 0
    ensures |d| == n && forall p :: 0 <= p < n ==> |d[p]| == n
  {
    seq(n, p requires 0 <= p < n =>
      seq(n, q requires 0 <= q < n => (c[q][p] as real / c[p][p] as real) * 100.0))
  }

  lemma {:induction false} PercentBounds(s: nat, t: nat)
    requires 0 < t && s <= t
    ensures 0.0 <= (s as real / t as real) * 100.0 <= 100.0
  {
  }

  /** Every project has at least one contributor (otherwise its row is NaN). */
  predicate EveryProjectContributed(m: seq<seq<int>>, projects: nat)
    requires Rectangular(m, projects)
  {
    forall p :: 0 <= p < projects ==> Contributors(m, projects, p, |m|) > 0
  }

  /**
   * Percentage `[p, q]` is the share of project `p`'s contributors who also
   * contributed to `q`, a value in [0, 100] (100 on the diagonal).
   */
  lemma {:induction false} PercentagesAreShares(m: seq<seq<int>>, projects: nat, p: nat, q: nat)
    requires Rectangular(m, projects) && EveryProjectContributed(m, projects)
    requires p < projects && q < projects
    ensures var c := CoContributorMatrix(Binarise(m, projects), projects);
      (forall r :: 0 <= r < projects ==> c[r][r] != 0)
      && var d := Percentages(c, projects);
      && d[p][q] == (Shared(m, projects, p, q, |m|) as real / Contributors(m, projects, p, |m|) as real) * 100.0
      && 0.0 <= d[p][q] <= 100.0
  {
    var c := CoContributorMatrix(Binarise(m, projects), projects);
    forall r | 0 <= r < projects
      ensures c[r][r] != 0
    {
      CoContributorMatrixFacts(m, projects, r, r);
    }
    CoContributorMatrixFacts(m, projects, p, q);
    CoContributorMatrixFacts(m, projects, q, p);
    PercentBounds(Shared(m, projects, p, q, |m|), Contributors(m, projects, p, |m|));
  }

  /** `d[np.diag_indices_from(d)] = 0`: clears the diagonal and leaves the rest. */
  method ZeroDiagonal(d: array2<real>)
    requires d.Length0 == d.Length1
    modifies d
    ensures forall p :: 0 <= p < d.Length0 ==> d[p, p] == 0.0
    ensures forall p, q :: 0 <= p < d.Length0 && 0 <= q < d.Length1 && p != q ==> d[p, q] == old(d[p, q])
  {
    for i := 0 to d.Length0
      invariant forall p :: 0 <= p < i ==> d[p, p] == 0.0
      invariant forall p, q :: 0 <= p < d.Length0 && 0 <= q < d.Length1 && (p != q || p >= i) ==> d[p, q] == old(d[p, q])
    {
      d[i, i] := 0.0;
    }
  }

  /**
   * `dist_cocontributors` as the figure uses it: the percentage matrix with
   * its diagonal cleared.
   */
  method CoContributorPercentages(m: seq<seq<int>>, projects: nat) returns (d: array2<real>)
    requires Rectangular(m, projects) && EveryProjectContributed(m, projects)
    ensures fresh(d) && d.Length0 == projects && d.Length1 == projects
    ensures forall p, q :: 0 <= p < projects && 0 <= q < projects ==>
      d[p, q] == if p == q then 0.0
                 else (Shared(m, projects, p, q, |m|) as real / Contributors(m, projects, p, |m|) as real) * 100.0
  {
    var c := CoContributorMatrix(Binarise(m, projects), projects);
    if projects > 0 {
      PercentagesAreShares(m, projects, 0, 0);
    }
    assert forall r :: 0 <= r < projects ==> c[r][r] != 0 by {
      forall r | 0 <= r < projects
        ensures c[r][r] != 0
      {
        CoContributorMatrixFacts(m, projects, r, r);
      }
    }
    var pct := Percentages(c, projects);
    d := new real[projects, projects]((p: nat, q: nat) requires p < projects && q < projects => pct[p][q]);
    forall p, q | 0 <= p < projects && 0 <= q < projects
      ensures pct[p][q] == (Shared(m, projects, p, q, |m|) as real / Contributors(m, projects, p, |m|) as real) * 100.0
    {
      PercentagesAreShares(m, projects, p, q);
    }
    ZeroDiagonal(d);
  }

  /** The sum of the entries of a row of reals. */
  function RowSum(r: seq<real>): real
  {
    if |r| == 0 then 0.0 else RowSum(r[..|r| - 1]) + r[|r| - 1]
  }

  /** `data.cumsum(axis=1)` for one row: entry `i` is the running total up to and including column `i`. */
  function CumSum(r: seq<real>): (c: seq<real>)
    ensures |c| == |r|
  {
    seq(|r|, i requires 0 <= i < |r| => RowSum(r[..i + 1]))
  }

  lemma {:induction false} RowSumStep(r: seq<real>, i: nat)
    requires i < |r|
    ensures RowSum(r[..i + 1]) == RowSum(r[..i]) + r[i]
  {
    var w := r[..i + 1];
    assert w[..|w| - 1] == r[..i];
  }

  /**
   * `starts = data_cum[:, i] - widths`: each bar starts where the bars of
   * the preceding columns end.
   */
  lemma {:induction false} StartsArePrecedingSums(r: seq<real>, i: nat)
    requires i < |r|
    ensures CumSum(r)[i] - r[i] == RowSum(r[..i])
  {
    RowSumStep(r, i);
  }

  /** The running total at the last column is the row's total. */
  lemma {:induction false} CumSumEndsAtTotal(r: seq<real>)
    requires |r| > 0
    ensures CumSum(r)[|r| - 1] == RowSum(r)
  {
    assert r[..|r|] == r;
  }
}
