/**
 * `compute_bus_factor` (scripts/survivor_analysis/utils/project_features.py):
 * how concentrated a project's commits are among its top authors. Commits
 * are counted per author name, the counts are ranked from largest to
 * smallest and divided by the largest, and the bus factor is the mean of
 * `1 - share` over the first `n_committers` authors. Lower means more
 * concentrated.
 */
module BusFactor {
  import opened Wrappers
  import opened Tally
  import opened Sorting

  /** `n_committers` when the caller gives none. */
  const DefaultCommitters: nat := 5

  /** The commit table; only its `author_name` column is used. `None` is a missing name (NaN). */
  class CommitFrame {
    var authorName: seq<Option<string>>

    constructor (authorName: seq<Option<string>>)
      ensures this.authorName == authorName
    {
      this.authorName := authorName;
    }
  }

  /** The `author_name` column after `.replace(np.nan, "")`. */
  function FillMissing(names: seq<Option<string>>): (r: seq<string>)
    ensures |r| == |names|
  {
    seq(|names|, i requires 0 <= i < |names| => names[i].GetOr(""))
  }

  /** Number of entries of the column equal to `v`. */
  function CountEqual<T(==)>(s: seq<T>, v: T): (n: nat)
    ensures n <= |s|
    decreases |s|
  {
    if |s| == 0 then 0
    else CountEqual(s[..|s| - 1], v) + (if s[|s| - 1] == v then 1 else 0)
  }

  /**
   * After filling, every commit without a name and every commit named ""
   * fall into one bucket, and every other name keeps its commits.
   */
  lemma {:induction false} FillMissingBuckets(names: seq<Option<string>>, a: string)
    ensures multiset(FillMissing(names))[""] == CountEqual(names, None) + CountEqual(names, Some(""))
    ensures a != "" ==> multiset(FillMissing(names))[a] == CountEqual(names, Some(a))
    decreases |names|
  {
    if |names| > 0 {
      var p := names[..|names| - 1];
      FillMissingBuckets(p, a);
      assert FillMissing(names) == FillMissing(p) + [names[|names| - 1].GetOr("")];
    }
  }

  /** The commit counts per author, largest first (`sort()` then `[::-1]`). */
  function Ranked(names: seq<string>): (r: seq<int>)
    ensures |r| == |Counts(names)|
  {
    Reverse(SortAscending(Counts(names)))
  }

  /** `s.astype(float)`. */
  function AsReals(s: seq<int>): (r: seq<real>)
    ensures |r| == |s|
  {
    seq(|s|, i requires 0 <= i < |s| => s[i] as real)
  }

  /** `s.max()`; numpy raises on an empty array. */
  function Max(s: seq<real>): (m: real)
    requires |s| > 0
    ensures exists i :: 0 <= i < |s| && s[i] == m
    ensures forall i :: 0 <= i < |s| ==> s[i] <= m
    decreases |s|
  {
    if |s| == 1 then s[0]
    else
      var m := Max(s[..|s| - 1]);
      assert forall i :: 0 <= i < |s| - 1 ==> s[..|s| - 1][i] == s[i];
      if s[|s| - 1] > m then s[|s| - 1] else m
  }

  /** `s / s.max()`. */
  function DivideByMax(s: seq<real>): (r: seq<real>)
    requires |s| > 0 && Max(s) != 0.0
    ensures |r| == |s|
  {
    var m := Max(s);
    seq(|s|, i requires 0 <= i < |s| => s[i] / m)
  }

  function SumReals(s: seq<real>): real
    decreases |s|
  {
    if |s| == 0 then 0.0 else SumReals(s[..|s| - 1]) + s[|s| - 1]
  }

  /** `np.mean` of a non-empty array. */
  function Mean(s: seq<real>): real
    requires |s| > 0
  {
    SumReals(s) / |s| as real
  }

  function Min(a: nat, b: nat): nat
  {
    if a <= b then a else b
  }

  /** The normalised commit shares, largest first. */
  function Shares(names: seq<string>): (r: seq<real>)
    requires |names| > 0
    ensures |r| == |Counts(names)| > 0
  {
    RankedTopIsMax(names);
    RankedPositive(names);
    DivideByMax(AsReals(Ranked(names)))
  }

  /** The bus factor of a table of (filled) author names: the mean shortfall of the top authors. */
  function BusFactorOf(names: seq<string>, nCommitters: nat): real
    requires |names| > 0 && nCommitters >= 1
  {
    var v := Shares(names);
    var k := Min(nCommitters, |v|);
    Mean(seq(k, i requires 0 <= i < k => 1.0 - v[i]))
  }

  lemma {:induction false} CountsNonEmpty(names: seq<string>)
    requires |names| > 0
    ensures |Counts(names)| > 0
  {
    assert names[0] in Distinct(names);
  }

  /** The ranked counts are a rearrangement of the per-author counts, one per distinct author. */
  lemma {:induction false} RankedPermutation(names: seq<string>)
    ensures multiset(Ranked(names)) == multiset(Counts(names))
    ensures |Ranked(names)| == |set a | a in names|
  {
    ReverseMultiset(SortAscending(Counts(names)));
    CountsOnePerValue(names);
  }

  /** The ranked counts are non-increasing. */
  lemma {:induction false} RankedDescending(names: seq<string>)
    ensures forall i, j :: 0 <= i < j < |Ranked(names)| ==> Ranked(names)[i] >= Ranked(names)[j]
  {
    SortAscendingIsAscending(Counts(names));
  }

  /** Every ranked count is at least one, and together they add up to the number of commits. */
  lemma {:induction false} RankedPositive(names: seq<string>)
    ensures forall i :: 0 <= i < |Ranked(names)| ==> Ranked(names)[i] >= 1
    ensures Sum(Ranked(names)) == |names|
  {
    var c := Counts(names);
    var r := Ranked(names);
    RankedPermutation(names);
    forall i | 0 <= i < |r|
      ensures r[i] >= 1
    {
      assert r[i] in multiset(c);
      var j :| 0 <= j < |c| && c[j] == r[i];
      CountsPositive(names, j);
    }
    CountsSum(names);
    SumPermutation(r, c);
  }

  /** The first ranked count is the maximum. */
  lemma {:induction false} RankedTopIsMax(names: seq<string>)
    requires |names| > 0
    ensures |Ranked(names)| > 0
    ensures Max(AsReals(Ranked(names))) == Ranked(names)[0] as real
  {
    CountsNonEmpty(names);
    RankedDescending(names);
    var r := Ranked(names);
    var v := AsReals(r);
    var m := Max(v);
    var i :| 0 <= i < |v| && v[i] == m;
    assert v[0] >= v[i] && v[0] <= m;
  }

  /** Each share is the author's count over the top author's count. */
  lemma {:induction false} ShareAt(names: seq<string>, i: nat)
    requires |names| > 0 && i < |Shares(names)|
    ensures 1 <= Ranked(names)[i] <= Ranked(names)[0]
    ensures Shares(names)[i] == Ranked(names)[i] as real / Ranked(names)[0] as real
  {
    var r := Ranked(names);
    RankedTopIsMax(names);
    RankedPositive(names);
    RankedDescending(names);
    var v := AsReals(r);
    assert Shares(names) == DivideByMax(v);
    assert DivideByMax(v)[i] == v[i] / Max(v);
  }

  /** The top author's share is exactly 1. */
  lemma {:induction false} TopShareIsOne(names: seq<string>)
    requires |names| > 0
    ensures Shares(names)[0] == 1.0
  {
    ShareAt(names, 0);
    var r := Ranked(names);
    DivisionSelf(r[0] as real);
  }

  /** Every share lies in (0, 1]. */
  lemma {:induction false} ShareInRange(names: seq<string>, i: nat)
    requires |names| > 0 && i < |Shares(names)|
    ensures 0.0 < Shares(names)[i] <= 1.0
  {
    ShareAt(names, i);
    var r := Ranked(names);
    DivisionBounds(r[i] as real, r[0] as real);
  }

  /** The shares are non-increasing. */
  lemma {:induction false} SharesDescending(names: seq<string>, i: nat, j: nat)
    requires |names| > 0 && i < j < |Shares(names)|
    ensures Shares(names)[i] >= Shares(names)[j]
  {
    ShareAt(names, i);
    ShareAt(names, j);
    RankedDescending(names);
    var r := Ranked(names);
    DivisionMonotone(r[j] as real, r[i] as real, r[0] as real);
  }

  /** After dividing by the maximum, the top share is exactly 1 and every share lies in (0, 1]. */
  lemma {:induction false} SharesFacts(names: seq<string>)
    requires |names| > 0
    ensures Shares(names)[0] == 1.0
    ensures forall i :: 0 <= i < |Shares(names)| ==> 0.0 < Shares(names)[i] <= 1.0
    ensures forall i, j :: 0 <= i < j < |Shares(names)| ==> Shares(names)[i] >= Shares(names)[j]
  {
    TopShareIsOne(names);
    forall i | 0 <= i < |Shares(names)|
      ensures 0.0 < Shares(names)[i] <= 1.0
    {
      ShareInRange(names, i);
    }
    forall i, j | 0 <= i < j < |Shares(names)|
      ensures Shares(names)[i] >= Shares(names)[j]
    {
      SharesDescending(names, i, j);
    }
  }

  lemma {:induction false} DivisionSelf(x: real)
    requires x != 0.0
    ensures x / x == 1.0
  {
  }

  lemma {:induction false} DivisionBounds(x: real, m: real)
    requires 0.0 < x <= m
    ensures 0.0 < x / m <= 1.0
  {
  }

  lemma {:induction false} DivisionMonotone(x: real, y: real, m: real)
    requires x <= y && m > 0.0
    ensures x / m <= y / m
  {
  }

  /** The shortfalls `1 - share` of the top `k` authors. */
  function Shortfalls(names: seq<string>, nCommitters: nat): (t: seq<real>)
    requires |names| > 0 && nCommitters >= 1
    ensures |t| == Min(nCommitters, |Shares(names)|) >= 1
  {
    var v := Shares(names);
    var k := Min(nCommitters, |v|);
    seq(k, i requires 0 <= i < k => 1.0 - v[i])
  }

  lemma {:induction false} SumRealsBounds(t: seq<real>)
    requires forall i :: 0 <= i < |t| ==> 0.0 <= t[i] < 1.0
    ensures 0.0 <= SumReals(t)
    ensures |t| > 0 && t[0] == 0.0 ==> SumReals(t) <= (|t| - 1) as real
    ensures SumReals(t) == 0.0 <==> forall i :: 0 <= i < |t| ==> t[i] == 0.0
    decreases |t|
  {
    if |t| > 0 {
      SumRealsBounds(t[..|t| - 1]);
    }
  }

  /**
   * The bus factor lies in [0, 1): the top author's shortfall is zero and
   * no other shortfall reaches one.
   */
  lemma {:induction false} BusFactorRange(names: seq<string>, nCommitters: nat)
    requires |names| > 0 && nCommitters >= 1
    ensures 0.0 <= BusFactorOf(names, nCommitters) < 1.0
  {
    var t := Shortfalls(names, nCommitters);
    ShortfallsBounds(names, nCommitters);
    SumRealsBounds(t);
    assert BusFactorOf(names, nCommitters) == SumReals(t) / |t| as real;
    MeanBelowOne(SumReals(t), |t|);
  }

  /** The top author's shortfall is zero and every shortfall lies in [0, 1). */
  lemma {:induction false} ShortfallsBounds(names: seq<string>, nCommitters: nat)
    requires |names| > 0 && nCommitters >= 1
    ensures Shortfalls(names, nCommitters)[0] == 0.0
    ensures forall i :: 0 <= i < |Shortfalls(names, nCommitters)| ==>
      0.0 <= Shortfalls(names, nCommitters)[i] < 1.0
  {
    SharesFacts(names);
  }

  lemma {:induction false} MeanBelowOne(total: real, n: nat)
    requires n >= 1 && 0.0 <= total <= (n - 1) as real
    ensures 0.0 <= total / n as real < 1.0
  {
  }

  /** An author's shortfall is zero exactly when they tie with the top author. */
  lemma {:induction false} ShortfallZeroIff(names: seq<string>, nCommitters: nat, i: nat)
    requires |names| > 0 && nCommitters >= 1
    requires i < |Shortfalls(names, nCommitters)|
    ensures i < |Ranked(names)|
    ensures Shortfalls(names, nCommitters)[i] == 0.0 <==> Ranked(names)[i] == Ranked(names)[0]
  {
    ShareAt(names, i);
    var r := Ranked(names);
    ShareIsOneIff(r[i] as real, r[0] as real);
  }

  /** The bus factor is zero exactly when all the considered top authors tie with the top one. */
  lemma {:induction false} BusFactorZeroIff(names: seq<string>, nCommitters: nat)
    requires |names| > 0 && nCommitters >= 1
    ensures var r := Ranked(names);
      BusFactorOf(names, nCommitters) == 0.0 <==>
      forall i :: 0 <= i < Min(nCommitters, |r|) ==> r[i] == r[0]
  {
    var t := Shortfalls(names, nCommitters);
    var r := Ranked(names);
    SharesFacts(names);
    SumRealsBounds(t);
    assert BusFactorOf(names, nCommitters) == SumReals(t) / |t| as real;
    MeanZeroIff(SumReals(t), |t| as real);
    forall i | 0 <= i < |t|
      ensures t[i] == 0.0 <==> r[i] == r[0]
    {
      ShortfallZeroIff(names, nCommitters, i);
    }
  }

  lemma {:induction false} MeanZeroIff(total: real, k: real)
    requires k > 0.0
    ensures total / k == 0.0 <==> total == 0.0
  {
  }

  lemma {:induction false} ShareIsOneIff(x: real, m: real)
    requires m > 0.0
    ensures 1.0 - x / m == 0.0 <==> x == m
  {
  }

  /** Two tables whose per-author counts form the same bag have the same ranked counts. */
  lemma {:induction false} RankedDependsOnlyOnCounts(a: seq<string>, b: seq<string>)
    requires multiset(Counts(a)) == multiset(Counts(b))
    ensures Ranked(a) == Ranked(b)
  {
    SortAscendingIsAscending(Counts(b));
    IsSortAscending(Counts(a), SortAscending(Counts(b)));
  }

  /**
   * The bus factor depends only on the bag of per-author counts: not on
   * the order of the commit rows and not on the authors' names.
   */
  lemma {:induction false} BusFactorDependsOnlyOnCounts(a: seq<string>, b: seq<string>, nCommitters: nat)
    requires |a| > 0 && |b| > 0 && nCommitters >= 1
    requires multiset(Counts(a)) == multiset(Counts(b))
    ensures BusFactorOf(a, nCommitters) == BusFactorOf(b, nCommitters)
  {
    RankedDependsOnlyOnCounts(a, b);
  }

  /** Reordering the commit rows does not change the bus factor. */
  lemma {:induction false} BusFactorRowOrderInvariant(a: seq<string>, b: seq<string>, nCommitters: nat)
    requires |a| > 0 && nCommitters >= 1
    requires multiset(a) == multiset(b)
    ensures |b| > 0
    ensures BusFactorOf(a, nCommitters) == BusFactorOf(b, nCommitters)
  {
    assert |b| == |multiset(b)| == |a|;
    CountsPermutationInvariant(a, b);
    BusFactorDependsOnlyOnCounts(a, b, nCommitters);
  }

  /**
   * Lines 24-25 of `compute_bus_factor`: `commits_counts.sort()` in place,
   * then `commits_counts[::-1].astype(float)` into a new array.
   */
  method RankCounts(counts: seq<nat>) returns (v: array<real>)
    ensures fresh(v)
    ensures v[..] == AsReals(Reverse(SortAscending(counts)))
  {
    var n := |counts|;
    var a := new int[n](i requires 0 <= i < n => counts[i]);
    assert a[..] == counts;
    SortInPlace(a, (x: int, y: int) => x <= y);
    IsSortAscending(counts, a[..]);
    var ascending := a[..];
    v := new real[n](i requires 0 <= i < n => ascending[n - 1 - i] as real);
  }

  /** Line 26 of `compute_bus_factor`: `commits_counts /= commits_counts.max()`. */
  method DivideByMaxInPlace(v: array<real>)
    requires v.Length > 0 && Max(v[..]) != 0.0
    modifies v
    ensures v[..] == DivideByMax(old(v[..]))
  {
    var m := Max(v[..]);
    ghost var before := v[..];
    for k := 0 to v.Length
      invariant forall i :: 0 <= i < k ==> v[i] == before[i] / m
      invariant forall i :: k <= i < v.Length ==> v[i] == before[i]
    {
      v[k] := v[k] / m;
    }
  }

  /**
   * With the default `n_committers`, the mean runs over the five most active
   * authors, or over all of them when there are fewer.
   */
  lemma {:induction false} DefaultConsidersTopFive(names: seq<string>)
    requires |names| > 0
    ensures |Shortfalls(names, DefaultCommitters)| == if |set a | a in names| < 5 then |set a | a in names| else 5
  {
    CountsOnePerValue(names);
  }

  /**
   * `compute_bus_factor(commits, n_committers)`. Overwrites the caller's
   * `author_name` column (missing names become ""), counts commits per
   * name, ranks the counts, divides them by their maximum and returns the
   * mean shortfall of the first `n_committers` entries.
   */
  method ComputeBusFactor(commits: CommitFrame, nCommitters: nat) returns (busFactor: real)
    requires |commits.authorName| > 0
    requires nCommitters >= 1
    modifies commits
    ensures |commits.authorName| == |old(commits.authorName)|
    ensures forall i :: 0 <= i < |commits.authorName| ==>
      commits.authorName[i] == Some(old(commits.authorName)[i].GetOr(""))
    ensures busFactor == BusFactorOf(FillMissing(old(commits.authorName)), nCommitters)
  {
    var names := FillMissing(commits.authorName);
    commits.authorName := seq(|names|, i requires 0 <= i < |names| => Some(names[i]));

    var _, counts := CountUnique(names);
    var v := RankCounts(counts);
    assert v[..] == AsReals(Ranked(names));
    RankedTopIsMax(names);
    RankedPositive(names);
    DivideByMaxInPlace(v);
    var shares := v[..];
    assert shares == Shares(names);

    var top := Min(nCommitters, v.Length);
    busFactor := Mean(seq(top, i requires 0 <= i < top => 1.0 - shares[i]));
  }
}
