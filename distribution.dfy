/**
 * The distribution of co-contributions
 * (scripts/visualizations/figure_supp_distribution_cocontributions.py).
 * Each author gets `N`, the number of projects they contributed to; the
 * binarised contribution rows are summed per value of `N`, each project
 * column is normalised to percentages, the project columns are ordered by
 * their share of single-project contributors, and the stacked bars of each
 * project run up to 100.
 */
module CoContributionDistribution {
  import opened Wrappers
  import opened Sorting
  import opened CoContributors

  /** `N` for one author: `(row != 0).sum()`. */
  function ProjectsTouched(row: seq<int>): (n: nat)
    ensures n <= |row|
  {
    if |row| == 0 then 0
    else ProjectsTouched(row[..|row| - 1]) + (if row[|row| - 1] != 0 then 1 else 0)
  }

  /** Some author has `N == k`. */
  predicate HasGroup(m: seq<seq<int>>, k: nat)
  {
    exists a :: 0 <= a < |m| && ProjectsTouched(m[a]) == k
  }

  /** The values of `N` below `j` that occur, ascending (`groupby` sorts its keys). */
  function KeysBelow(m: seq<seq<int>>, j: nat): seq<nat>
  {
    if j == 0 then []
    else KeysBelow(m, j - 1) + (if HasGroup(m, j - 1) then [j - 1] else [])
  }

  /** The keys below `j` are exactly the values of `N` below `j` that occur, strictly ascending. */
  lemma {:induction false} KeysBelowFacts(m: seq<seq<int>>, j: nat)
    ensures var keys := KeysBelow(m, j);
      && (forall i :: 0 <= i < |keys| ==> keys[i] < j && HasGroup(m, keys[i]))
      && (forall i, i' :: 0 <= i < i' < |keys| ==> keys[i] < keys[i'])
      && (forall k: nat :: k < j && HasGroup(m, k) ==> k in keys)
  {
    if j > 0 {
      KeysBelowFacts(m, j - 1);
      var prev := KeysBelow(m, j - 1);
      assert KeysBelow(m, j) == prev + (if HasGroup(m, j - 1) then [j - 1] else []);
    }
  }

  /** The group keys: every value of `N` that occurs, ascending. */
  function GroupKeys(m: seq<seq<int>>, projects: nat): seq<nat>
  {
    KeysBelow(m, projects + 1)
  }

  /** Every author's `N` is a key. */
  lemma {:induction false} EveryAuthorHasItsGroup(m: seq<seq<int>>, projects: nat, a: nat)
    requires Rectangular(m, projects) && a < |m|
    ensures ProjectsTouched(m[a]) in GroupKeys(m, projects)
  {
    KeysBelowFacts(m, projects + 1);
    assert HasGroup(m, ProjectsTouched(m[a]));
  }

  /** Among the first `upto` authors, the contributors to `p` whose `N` lies in `[lo, hi)`. */
  function CountIn(m: seq<seq<int>>, projects: nat, p: nat, lo: nat, hi: nat, upto: nat): (n: nat)
    requires Rectangular(m, projects) && p < projects && upto <= |m|
    ensures n <= upto
  {
    if upto == 0 then 0
    else
      var a := upto - 1;
      CountIn(m, projects, p, lo, hi, a)
      + (if lo <= ProjectsTouched(m[a]) < hi && m[a][p] > 0 then 1 else 0)
  }

  /** Entry `(k, p)` of `test.groupby("N").sum()`: contributors to `p` who touch exactly `k` projects. */
  function GroupCount(m: seq<seq<int>>, projects: nat, k: nat, p: nat): nat
    requires Rectangular(m, projects) && p < projects
  {
    CountIn(m, projects, p, k, k + 1, |m|)
  }

  lemma {:induction false} CountInSplit(m: seq<seq<int>>, projects: nat, p: nat, lo: nat, mid: nat, hi: nat, upto: nat)
    requires Rectangular(m, projects) && p < projects && upto <= |m| && lo <= mid <= hi
    ensures CountIn(m, projects, p, lo, hi, upto)
      == CountIn(m, projects, p, lo, mid, upto) + CountIn(m, projects, p, mid, hi, upto)
  {
    if upto > 0 {
      CountInSplit(m, projects, p, lo, mid, hi, upto - 1);
    }
  }

  lemma {:induction false} CountInAllGroups(m: seq<seq<int>>, projects: nat, p: nat, upto: nat)
    requires Rectangular(m, projects) && p < projects && upto <= |m|
    ensures CountIn(m, projects, p, 0, projects + 1, upto) == Contributors(m, projects, p, upto)
  {
    if upto > 0 {
      CountInAllGroups(m, projects, p, upto - 1);
    }
  }

  lemma {:induction false} EmptyGroupCountsNothing(m: seq<seq<int>>, projects: nat, k: nat, p: nat, upto: nat)
    requires Rectangular(m, projects) && p < projects && upto <= |m| && !HasGroup(m, k)
    ensures CountIn(m, projects, p, k, k + 1, upto) == 0
  {
    if upto > 0 {
      EmptyGroupCountsNothing(m, projects, k, p, upto - 1);
    }
  }

  lemma {:induction false} EmptyRangeCountsNothing(m: seq<seq<int>>, projects: nat, p: nat, upto: nat)
    requires Rectangular(m, projects) && p < projects && upto <= |m|
    ensures CountIn(m, projects, p, 0, 0, upto) == 0
  {
    if upto > 0 {
      EmptyRangeCountsNothing(m, projects, p, upto - 1);
    }
  }

  /** The sum of column `p` over the groups listed in `keys`. */
  function SumGroups(m: seq<seq<int>>, projects: nat, keys: seq<nat>, p: nat): nat
    requires Rectangular(m, projects) && p < projects
  {
    if |keys| == 0 then 0
    else SumGroups(m, projects, keys[..|keys| - 1], p) + GroupCount(m, projects, keys[|keys| - 1], p)
  }

  lemma {:induction false} SumGroupsBelow(m: seq<seq<int>>, projects: nat, p: nat, j: nat)
    requires Rectangular(m, projects) && p < projects
    ensures SumGroups(m, projects, KeysBelow(m, j), p) == CountIn(m, projects, p, 0, j, |m|)
  {
    if j == 0 {
      EmptyRangeCountsNothing(m, projects, p, |m|);
    } else {
      SumGroupsBelow(m, projects, p, j - 1);
      CountInSplit(m, projects, p, 0, j - 1, j, |m|);
      SumGroupsStep(m, projects, p, j);
    }
  }

  lemma {:induction false} SumGroupsStep(m: seq<seq<int>>, projects: nat, p: nat, j: nat)
    requires Rectangular(m, projects) && p < projects && j > 0
    ensures SumGroups(m, projects, KeysBelow(m, j), p)
      == SumGroups(m, projects, KeysBelow(m, j - 1), p) + CountIn(m, projects, p, j - 1, j, |m|)
  {
    var prev := KeysBelow(m, j - 1);
    if HasGroup(m, j - 1) {
      assert KeysBelow(m, j) == prev + [j - 1];
      SumGroupsAppend(m, projects, prev, j - 1, p);
    } else {
      assert KeysBelow(m, j) == prev;
      EmptyGroupCountsNothing(m, projects, j - 1, p, |m|);
    }
  }

  lemma {:induction false} SumGroupsAppend(m: seq<seq<int>>, projects: nat, keys: seq<nat>, k: nat, p: nat)
    requires Rectangular(m, projects) && p < projects
    ensures SumGroups(m, projects, keys + [k], p) == SumGroups(m, projects, keys, p) + GroupCount(m, projects, k, p)
  {
    assert (keys + [k])[..|keys|] == keys;
  }

  /** Summing a project's column over all groups gives its number of contributors. */
  lemma {:induction false} ColumnSumIsContributors(m: seq<seq<int>>, projects: nat, p: nat)
    requires Rectangular(m, projects) && p < projects
    ensures SumGroups(m, projects, GroupKeys(m, projects), p) == Contributors(m, projects, p, |m|)
  {
    SumGroupsBelow(m, projects, p, projects + 1);
    CountInAllGroups(m, projects, p, |m|);
  }

  /**
   * `test.apply(lambda x: x / x.sum()) * 100`: entry `[i][p]` is the
   * percentage of project `p`'s contributors in the `i`-th group.
   */
  function Normalised(m: seq<seq<int>>, projects: nat): (t: seq<seq<real>>)
    requires Rectangular(m, projects) && EveryProjectContributed(m, projects)
    ensures |t| == |GroupKeys(m, projects)|
    ensures forall i :: 0 <= i < |t| ==> |t[i]| == projects
  {
    var keys := GroupKeys(m, projects);
    assert forall p :: 0 <= p < projects ==> SumGroups(m, projects, keys, p) > 0 by {
      forall p | 0 <= p < projects
        ensures SumGroups(m, projects, keys, p) > 0
      {
        ColumnSumIsContributors(m, projects, p);
      }
    }
    seq(|keys|, i requires 0 <= i < |keys| =>
      seq(projects, p requires 0 <= p < projects =>
        (GroupCount(m, projects, keys[i], p) as real
          / SumGroups(m, projects, keys, p) as real) * 100.0))
  }

  /** Column `p` of a table. */
  function Column(t: seq<seq<real>>, p: nat): (c: seq<real>)
    requires forall i :: 0 <= i < |t| ==> p < |t[i]|
    ensures |c| == |t|
  {
    seq(|t|, i requires 0 <= i < |t| => t[i][p])
  }

  /** Group counts of column `p` as percentages of `total`. */
  function ScaledColumn(m: seq<seq<int>>, projects: nat, keys: seq<nat>, p: nat, total: real): (c: seq<real>)
    requires Rectangular(m, projects) && p < projects && total != 0.0
    ensures |c| == |keys|
  {
    seq(|keys|, i requires 0 <= i < |keys| => (GroupCount(m, projects, keys[i], p) as real / total) * 100.0)
  }

  lemma {:induction false} ScaledSum(m: seq<seq<int>>, projects: nat, keys: seq<nat>, p: nat, total: real)
    requires Rectangular(m, projects) && p < projects && total != 0.0
    ensures RowSum(ScaledColumn(m, projects, keys, p, total)) == (SumGroups(m, projects, keys, p) as real / total) * 100.0
  {
    if |keys| > 0 {
      var init := keys[..|keys| - 1];
      var s := ScaledColumn(m, projects, keys, p, total);
      assert s[..|s| - 1] == ScaledColumn(m, projects, init, p, total);
      ScaledSum(m, projects, init, p, total);
      var x, y := SumGroups(m, projects, init, p) as real, GroupCount(m, projects, keys[|keys| - 1], p) as real;
      AddFractions(x, y, total);
    }
  }

  lemma {:induction false} AddFractions(x: real, y: real, t: real)
    requires t != 0.0
    ensures (x / t) * 100.0 + (y / t) * 100.0 == ((x + y) / t) * 100.0
  {
  }

  lemma {:induction false} WholeIsHundred(t: real)
    requires t != 0.0
    ensures (t / t) * 100.0 == 100.0
  {
  }

  lemma {:induction false} NormalisedColumn(m: seq<seq<int>>, projects: nat, p: nat)
    requires Rectangular(m, projects) && EveryProjectContributed(m, projects) && p < projects
    ensures SumGroups(m, projects, GroupKeys(m, projects), p) > 0
    ensures Column(Normalised(m, projects), p)
      == ScaledColumn(m, projects, GroupKeys(m, projects), p, SumGroups(m, projects, GroupKeys(m, projects), p) as real)
  {
    ColumnSumIsContributors(m, projects, p);
  }

  /** After normalisation every project's column adds up to 100. */
  lemma {:induction false} ColumnsSumToHundred(m: seq<seq<int>>, projects: nat, p: nat)
    requires Rectangular(m, projects) && EveryProjectContributed(m, projects) && p < projects
    ensures RowSum(Column(Normalised(m, projects), p)) == 100.0
  {
    var keys := GroupKeys(m, projects);
    NormalisedColumn(m, projects, p);
    var total := SumGroups(m, projects, keys, p) as real;
    ScaledSum(m, projects, keys, p, total);
    WholeIsHundred(total);
  }

  /** The position of `k` in a list of keys, if it is there. */
  function IndexOf(keys: seq<nat>, k: nat): (r: Option<nat>)
    ensures r.Some? ==> r.value < |keys| && keys[r.value] == k
    ensures r.None? ==> k !in keys
  {
    if |keys| == 0 then None
    else if keys[|keys| - 1] == k then Some(|keys| - 1)
    else IndexOf(keys[..|keys| - 1], k)
  }

  /**
   * `test[test.columns[test.loc[1].argsort()]]`: the project order that
   * sorts the single-project shares ascending; KeyError when no author
   * contributed to exactly one project.
   */
  method OrderProjects(m: seq<seq<int>>, projects: nat) returns (r: Result<seq<nat>>)
    requires Rectangular(m, projects) && EveryProjectContributed(m, projects)
    ensures r.Ok? <==> HasGroup(m, 1)
    ensures r.Ok? <==> IndexOf(GroupKeys(m, projects), 1).Some?
    ensures r.Ok? ==> IsPermutation(r.value, projects)
    ensures r.Ok? ==> var t := Normalised(m, projects);
      var row := IndexOf(GroupKeys(m, projects), 1).value;
      forall j, j' :: 0 <= j < j' < projects ==>
        r.value[j] < projects && r.value[j'] < projects && t[row][r.value[j]] <= t[row][r.value[j']]
  {
    var keys := GroupKeys(m, projects);
    var t := Normalised(m, projects);
    KeysBelowFacts(m, projects + 1);
    match IndexOf(keys, 1)
    case None =>
      return Err(KeyError("1"));
    case Some(row) =>
      assert HasGroup(m, 1);
      var shares := t[row];
      var order := ArgSort(shares, (x: real, y: real) => x <= y);
      return Ok(order);
  }

  /**
   * `test.values.T` with the project columns in `order`: row `j` holds the
   * group percentages of project `order[j]`.
   */
  function Bars(t: seq<seq<real>>, projects: nat, order: seq<nat>): (d: seq<seq<real>>)
    requires forall i :: 0 <= i < |t| ==> |t[i]| == projects
    requires forall j :: 0 <= j < |order| ==> order[j] < projects
    ensures |d| == |order|
  {
    seq(|order|, j requires 0 <= j < |order| => Column(t, order[j]))
  }

  /** Each project's stacked bar ends at 100: the running total of its last group is 100. */
  lemma {:induction false} BarsEndAtHundred(m: seq<seq<int>>, projects: nat, order: seq<nat>, j: nat)
    requires Rectangular(m, projects) && EveryProjectContributed(m, projects)
    requires IsPermutation(order, projects) && j < projects
    ensures forall k :: 0 <= k < |order| ==> order[k] < projects
    ensures var d := Bars(Normalised(m, projects), projects, order);
      |d[j]| > 0 ==> CumSum(d[j])[|d[j]| - 1] == 100.0
  {
    PermutationFacts(order, projects);
    var d := Bars(Normalised(m, projects), projects, order);
    if |d[j]| > 0 {
      CumSumEndsAtTotal(d[j]);
      ColumnsSumToHundred(m, projects, order[j]);
    }
  }

  /** At least one group exists as soon as there is an author, so every bar has a segment. */
  lemma {:induction false} BarsNonEmpty(m: seq<seq<int>>, projects: nat)
    requires Rectangular(m, projects) && |m| > 0
    ensures |GroupKeys(m, projects)| > 0
  {
    EveryAuthorHasItsGroup(m, projects, 0);
  }
}
