/**
 * `np.unique(values, return_counts=True)`: the distinct values of a column
 * and how many rows hold each. numpy lists the distinct values in sorted
 * order; here they are listed in order of first appearance. Every caller
 * in the scripts uses only the counts, and only through operations that do
 * not depend on their order (sorting, thresholds, sums), so the two agree
 * wherever the results are used (see CountsPermutationInvariant).
 */
module Tally {

  /** The distinct values of `xs`, in order of first appearance. */
  function Distinct<T(==)>(xs: seq<T>): (d: seq<T>)
    ensures forall i, j :: 0 <= i < j < |d| ==> d[i] != d[j]
    ensures forall i :: 0 <= i < |d| ==> d[i] in xs
    ensures forall i :: 0 <= i < |xs| ==> xs[i] in d
    decreases |xs|
  {
    if |xs| == 0 then []
    else
      var d := Distinct(xs[..|xs| - 1]);
      var x := xs[|xs| - 1];
      assert xs == xs[..|xs| - 1] + [x];
      if x in d then d else d + [x]
  }

  /** How often each value listed in `keys` occurs in the bag `m`. */
  function Occurrences<T>(m: multiset<T>, keys: seq<T>): (c: seq<nat>)
    ensures |c| == |keys|
  {
    seq(|keys|, i requires 0 <= i < |keys| => m[keys[i]])
  }

  /** The `return_counts` array of `np.unique`: one count per distinct value. */
  function Counts<T(==)>(xs: seq<T>): (c: seq<nat>)
    ensures |c| == |Distinct(xs)|
  {
    Occurrences(multiset(xs), Distinct(xs))
  }

  /** `np.sum` over integers. */
  function Sum(s: seq<int>): int
    decreases |s|
  {
    if |s| == 0 then 0 else Sum(s[..|s| - 1]) + s[|s| - 1]
  }

  lemma {:induction false} SumAppend(s: seq<int>, t: seq<int>)
    ensures Sum(s + t) == Sum(s) + Sum(t)
    decreases |t|
  {
    if |t| == 0 {
      assert s + t == s;
    } else {
      assert (s + t)[..|s + t| - 1] == s + t[..|t| - 1];
      assert (s + t)[|s + t| - 1] == t[|t| - 1];
      SumAppend(s, t[..|t| - 1]);
      assert Sum(s + t) == Sum(s + t[..|t| - 1]) + t[|t| - 1];
      assert Sum(t) == Sum(t[..|t| - 1]) + t[|t| - 1];
    }
  }

  /** Adding one to a single entry adds one to the sum. */
  lemma {:induction false} SumIncrement(s: seq<int>, j: nat)
    requires j < |s|
    ensures Sum(s[j := s[j] + 1]) == Sum(s) + 1
  {
    var t := s[j := s[j] + 1];
    assert s == s[..j] + [s[j]] + s[j + 1..];
    assert t == s[..j] + [s[j] + 1] + s[j + 1..];
    SumAppend(s[..j] + [s[j]], s[j + 1..]);
    SumAppend(s[..j], [s[j]]);
    SumAppend(s[..j] + [s[j] + 1], s[j + 1..]);
    SumAppend(s[..j], [s[j] + 1]);
  }

  /** Every listed value occurs at least once: each count is at least one. */
  lemma {:induction false} CountsPositive<T>(xs: seq<T>, i: nat)
    requires i < |Counts(xs)|
    ensures Counts(xs)[i] >= 1
  {
    assert Distinct(xs)[i] in xs;
  }

  /** One count per distinct value. */
  lemma {:induction false} CountsOnePerValue<T>(xs: seq<T>)
    ensures |Counts(xs)| == |set x | x in xs|
  {
    DistinctCardinality(Distinct(xs));
    assert (set x | x in Distinct(xs)) == (set x | x in xs);
  }

  lemma {:induction false} DistinctCardinality<T>(d: seq<T>)
    requires forall i, j :: 0 <= i < j < |d| ==> d[i] != d[j]
    ensures |set x | x in d| == |d|
    decreases |d|
  {
    if |d| > 0 {
      var d' := d[..|d| - 1];
      DistinctCardinality(d');
      assert (set x | x in d) == (set x | x in d') + {d[|d| - 1]};
      assert d[|d| - 1] !in d';
    }
  }

  /** The counts add up to the number of rows. */
  lemma {:induction false} CountsSum<T>(xs: seq<T>)
    ensures Sum(Counts(xs)) == |xs|
    decreases |xs|
  {
    if |xs| > 0 {
      var p := xs[..|xs| - 1];
      CountsSum(p);
      assert p + [xs[|xs| - 1]] == xs;
      CountsSumStep(p, xs[|xs| - 1]);
    }
  }

  /** Reading one more row adds one to the sum of the counts. */
  lemma {:induction false} CountsSumStep<T>(p: seq<T>, x: T)
    ensures Sum(Counts(p + [x])) == Sum(Counts(p)) + 1
  {
    var d := Distinct(p);
    if x in d {
      var j :| 0 <= j < |d| && d[j] == x;
      CountsStepSeen(p, x, j);
      SumIncrement(Counts(p), j);
    } else {
      CountsStepNew(p, x);
      SumAppend(Counts(p), [1]);
    }
  }

  /** How `Distinct` changes when one more row is read. */
  lemma {:induction false} DistinctStep<T>(p: seq<T>, x: T)
    ensures x in Distinct(p) ==> Distinct(p + [x]) == Distinct(p)
    ensures x !in Distinct(p) ==> Distinct(p + [x]) == Distinct(p) + [x]
  {
    var xs := p + [x];
    assert xs[..|xs| - 1] == p;
  }

  lemma {:induction false} OccurrencesAdd<T>(m: multiset<T>, x: T, d: seq<T>, j: nat)
    requires j < |d| && d[j] == x
    requires forall i, k :: 0 <= i < k < |d| ==> d[i] != d[k]
    ensures Occurrences(m + multiset{x}, d) == Occurrences(m, d)[j := m[x] + 1]
  {
  }

  lemma {:induction false} OccurrencesAddAbsent<T>(m: multiset<T>, x: T, d: seq<T>)
    requires x !in d
    ensures Occurrences(m + multiset{x}, d) == Occurrences(m, d)
  {
  }

  /** Reading a value already seen adds one to its count. */
  lemma {:induction false} CountsStepSeen<T>(p: seq<T>, x: T, j: nat)
    requires j < |Distinct(p)| && Distinct(p)[j] == x
    ensures Counts(p + [x]) == Counts(p)[j := Counts(p)[j] + 1]
  {
    DistinctStep(p, x);
    assert multiset(p + [x]) == multiset(p) + multiset{x};
    OccurrencesAdd(multiset(p), x, Distinct(p), j);
  }

  /** Reading a new value appends a count of one. */
  lemma {:induction false} CountsStepNew<T>(p: seq<T>, x: T)
    requires x !in Distinct(p)
    ensures Counts(p + [x]) == Counts(p) + [1]
  {
    DistinctStep(p, x);
    assert multiset(p + [x]) == multiset(p) + multiset{x};
    assert x !in p;
    OccurrencesNew(multiset(p), Distinct(p), x);
  }

  /** Counting a value not listed before and not in the bag yet appends a count of one. */
  lemma {:induction false} OccurrencesNew<T>(m: multiset<T>, d: seq<T>, x: T)
    requires x !in d && m[x] == 0
    ensures Occurrences(m + multiset{x}, d + [x]) == Occurrences(m, d) + [1]
  {
    OccurrencesAppend(m + multiset{x}, d, [x]);
    OccurrencesAddAbsent(m, x, d);
  }

  /**
   * `np.unique(xs, return_counts=True)` as a single pass over the rows
   * that keeps a list of the values seen so far and their counts.
   */
  method CountUnique<T(==)>(xs: seq<T>) returns (keys: seq<T>, counts: seq<nat>)
    ensures keys == Distinct(xs)
    ensures counts == Counts(xs)
  {
    keys, counts := [], [];
    for i := 0 to |xs|
      invariant keys == Distinct(xs[..i])
      invariant counts == Counts(xs[..i])
    {
      var x := xs[i];
      var j := 0;
      while j < |keys| && keys[j] != x
        invariant 0 <= j <= |keys|
        invariant forall k :: 0 <= k < j ==> keys[k] != x
      {
        j := j + 1;
      }
      DistinctStep(xs[..i], x);
      assert xs[..i + 1] == xs[..i] + [x];
      if j < |keys| {
        CountsStepSeen(xs[..i], x, j);
        counts := counts[j := counts[j] + 1];
      } else {
        CountsStepNew(xs[..i], x);
        keys := keys + [x];
        counts := counts + [1];
      }
    }
    assert xs[..|xs|] == xs;
  }

  /**
   * The bag of counts depends only on the bag of rows: reordering the rows
   * permutes the counts and nothing more.
   */
  lemma {:induction false} CountsPermutationInvariant<T>(a: seq<T>, b: seq<T>)
    requires multiset(a) == multiset(b)
    ensures multiset(Counts(a)) == multiset(Counts(b))
  {
    var da, db := Distinct(a), Distinct(b);
    forall x
      ensures x in da <==> x in db
    {
      assert x in a <==> x in multiset(a);
      assert x in b <==> x in multiset(b);
    }
    OccurrencesPermutation(multiset(a), da, db);
  }

  lemma {:induction false} OccurrencesAppend<T>(m: multiset<T>, a: seq<T>, b: seq<T>)
    ensures Occurrences(m, a + b) == Occurrences(m, a) + Occurrences(m, b)
  {
  }

  /** Removing the entry at `j` from a duplicate-free listing: what remains, and that it is still duplicate-free. */
  lemma {:induction false} RemoveAt<T>(d: seq<T>, j: nat)
    requires j < |d|
    requires forall i, k :: 0 <= i < k < |d| ==> d[i] != d[k]
    ensures var r := d[..j] + d[j + 1..];
      && (forall i, k :: 0 <= i < k < |r| ==> r[i] != r[k])
      && (forall y :: y in r <==> y in d && y != d[j])
  {
    var r := d[..j] + d[j + 1..];
    forall i, k | 0 <= i < k < |r|
      ensures r[i] != r[k]
    {
      var i2 := if i < j then i else i + 1;
      var k2 := if k < j then k else k + 1;
      assert r[i] == d[i2] && r[k] == d[k2];
    }
    forall y
      ensures y in r <==> y in d && y != d[j]
    {
      if y in d && y != d[j] {
        var k :| 0 <= k < |d| && d[k] == y;
        if k < j { assert r[k] == y; } else { assert r[k - 1] == y; }
      }
    }
  }

  /** Two duplicate-free listings of the same values have the same length. */
  lemma {:induction false} SameElementsSameLength<T>(d1: seq<T>, d2: seq<T>)
    requires forall i, j :: 0 <= i < j < |d1| ==> d1[i] != d1[j]
    requires forall i, j :: 0 <= i < j < |d2| ==> d2[i] != d2[j]
    requires forall x :: x in d1 <==> x in d2
    ensures |d1| == |d2|
  {
    DistinctCardinality(d1);
    DistinctCardinality(d2);
    assert (set x | x in d1) == (set x | x in d2);
  }

  /** Two duplicate-free listings of the same values give the same bag of occurrences. */
  lemma {:induction false} OccurrencesPermutation<T>(m: multiset<T>, d1: seq<T>, d2: seq<T>)
    requires forall i, j :: 0 <= i < j < |d1| ==> d1[i] != d1[j]
    requires forall i, j :: 0 <= i < j < |d2| ==> d2[i] != d2[j]
    requires forall x :: x in d1 <==> x in d2
    ensures multiset(Occurrences(m, d1)) == multiset(Occurrences(m, d2))
    decreases |d1|
  {
    SameElementsSameLength(d1, d2);
    if |d1| > 0 {
      var i := |d1| - 1;
      assert d1[i] in d2;
      var j :| 0 <= j < |d2| && d2[j] == d1[i];
      DropSameValue(d1, d2, i, j);
      OccurrencesPermutation(m, d1[..i] + d1[i + 1..], d2[..j] + d2[j + 1..]);
      OccurrencesSplit(m, d1, i);
      OccurrencesSplit(m, d2, j);
    }
  }

  /** Dropping the same value from two duplicate-free listings of the same values leaves two such listings. */
  lemma {:induction false} DropSameValue<T>(d1: seq<T>, d2: seq<T>, i: nat, j: nat)
    requires i < |d1| && j < |d2| && d1[i] == d2[j]
    requires forall i, j :: 0 <= i < j < |d1| ==> d1[i] != d1[j]
    requires forall i, j :: 0 <= i < j < |d2| ==> d2[i] != d2[j]
    requires forall x :: x in d1 <==> x in d2
    ensures var r1, r2 := d1[..i] + d1[i + 1..], d2[..j] + d2[j + 1..];
      && (forall a, b :: 0 <= a < b < |r1| ==> r1[a] != r1[b])
      && (forall a, b :: 0 <= a < b < |r2| ==> r2[a] != r2[b])
      && (forall x :: x in r1 <==> x in r2)
  {
    RemoveAt(d1, i);
    RemoveAt(d2, j);
  }

  /** The bag of occurrences is that of the listing without entry `j`, plus the count of `d[j]`. */
  lemma {:induction false} OccurrencesSplit<T>(m: multiset<T>, d: seq<T>, j: nat)
    requires j < |d|
    ensures multiset(Occurrences(m, d)) == multiset(Occurrences(m, d[..j] + d[j + 1..])) + multiset{m[d[j]]}
  {
    var before, after := d[..j], d[j + 1..];
    assert d == before + [d[j]] + after;
    OccurrencesAppend(m, before + [d[j]], after);
    OccurrencesAppend(m, before, [d[j]]);
    OccurrencesAppend(m, before, after);
    assert Occurrences(m, [d[j]]) == [m[d[j]]];
  }

  /** A sum does not depend on the order of its terms. */
  lemma {:induction false} SumPermutation(s: seq<int>, t: seq<int>)
    requires multiset(s) == multiset(t)
    ensures Sum(s) == Sum(t)
    decreases |s|
  {
    assert |s| == |multiset(s)| == |t|;
    if |s| > 0 {
      var x := s[|s| - 1];
      assert x in multiset(t);
      var j :| 0 <= j < |t| && t[j] == x;
      var t' := t[..j] + t[j + 1..];
      assert t == t[..j] + [x] + t[j + 1..];
      assert s == s[..|s| - 1] + [x];
      assert multiset(s) == multiset(s[..|s| - 1]) + multiset{x};
      assert multiset(t) == multiset(t[..j]) + multiset{x} + multiset(t[j + 1..]);
      assert multiset(t') == multiset(t[..j]) + multiset(t[j + 1..]);
      assert multiset(s[..|s| - 1]) == multiset(s) - multiset{x};
      assert multiset(t') == multiset(t) - multiset{x};
      SumPermutation(s[..|s| - 1], t');
      SumAppend(t[..j] + [x], t[j + 1..]);
      SumAppend(t[..j], [x]);
      SumAppend(t[..j], t[j + 1..]);
    }
  }

  /** `f` applied to every element (a column of a table of records). */
  function Map<T, U>(s: seq<T>, f: T -> U): (r: seq<U>)
    ensures |r| == |s|
    ensures forall i :: 0 <= i < |s| ==> r[i] == f(s[i])
  {
    seq(|s|, i requires 0 <= i < |s| => f(s[i]))
  }

  /** Rearranging the records rearranges each column the same way. */
  lemma {:induction false} MapPermutation<T, U>(s: seq<T>, t: seq<T>, f: T -> U)
    requires multiset(s) == multiset(t)
    ensures multiset(Map(s, f)) == multiset(Map(t, f))
    decreases |s|
  {
    assert |s| == |multiset(s)| == |t|;
    if |s| > 0 {
      var i := |s| - 1;
      assert s[i] in multiset(t);
      var j :| 0 <= j < |t| && t[j] == s[i];
      BagWithout(s, i);
      BagWithout(t, j);
      MapPermutation(s[..i] + s[i + 1..], t[..j] + t[j + 1..], f);
      MapSplit(s, i, f);
      MapSplit(t, j, f);
    }
  }

  /** The bag of a sequence without its entry at `j`. */
  lemma {:induction false} BagWithout<T>(s: seq<T>, j: nat)
    requires j < |s|
    ensures multiset(s[..j] + s[j + 1..]) == multiset(s) - multiset{s[j]}
  {
    assert s == s[..j] + [s[j]] + s[j + 1..];
  }

  /** The bag of images is that of the sequence without entry `j`, plus the image of `s[j]`. */
  lemma {:induction false} MapSplit<T, U>(s: seq<T>, j: nat, f: T -> U)
    requires j < |s|
    ensures multiset(Map(s, f)) == multiset(Map(s[..j] + s[j + 1..], f)) + multiset{f(s[j])}
  {
    var before, after := s[..j], s[j + 1..];
    assert s == before + [s[j]] + after;
    MapAppend(before + [s[j]], after, f);
    MapAppend(before, [s[j]], f);
    MapAppend(before, after, f);
    assert Map([s[j]], f) == [f(s[j])];
  }

  lemma {:induction false} MapAppend<T, U>(a: seq<T>, b: seq<T>, f: T -> U)
    ensures Map(a + b, f) == Map(a, f) + Map(b, f)
  {
  }
}
