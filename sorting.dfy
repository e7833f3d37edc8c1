/**
 * The sorting primitives the scripts call: `ndarray.sort()` (in place),
 * `np.argsort` / `sort_values` (an order of row positions), and the
 * reference definition of "the sorted arrangement" of integers that the
 * specifications are stated against.
 */
module Sorting {

  /** `leq` orders every pair of values and is transitive. */
  ghost predicate TotalPreorder<T(!new)>(leq: (T, T) -> bool)
  {
    && (forall x, y :: leq(x, y) || leq(y, x))
    && (forall x, y, z :: leq(x, y) && leq(y, z) ==> leq(x, z))
  }

  /** Every earlier element is `leq` every later one. */
  predicate SortedBy<T>(s: seq<T>, leq: (T, T) -> bool)
  {
    forall i, j :: 0 <= i < j < |s| ==> leq(s[i], s[j])
  }

  /** Exchanges two entries of an array. */
  method Swap<T>(a: array<T>, i: nat, j: nat)
    requires i < a.Length && j < a.Length
    modifies a
    ensures a[i] == old(a[j]) && a[j] == old(a[i])
    ensures forall k :: 0 <= k < a.Length && k != i && k != j ==> a[k] == old(a[k])
    ensures multiset(a[..]) == old(multiset(a[..]))
  {
    a[i], a[j] := a[j], a[i];
  }

  /**
   * `ndarray.sort()`: rearranges the array in place so that it is ordered
   * by `leq`. (An insertion sort; numpy's algorithm differs, but for a
   * total order the sorted arrangement of a bag is unique, see
   * SortedUnique.)
   */
  method SortInPlace<T(!new)>(a: array<T>, leq: (T, T) -> bool)
    requires TotalPreorder(leq)
    modifies a
    ensures SortedBy(a[..], leq)
    ensures multiset(a[..]) == old(multiset(a[..]))
  {
    if a.Length == 0 {
      return;
    }
    var i := 1;
    while i < a.Length
      invariant 1 <= i <= a.Length
      invariant forall k, l :: 0 <= k < l < i ==> leq(a[k], a[l])
      invariant multiset(a[..]) == old(multiset(a[..]))
    {
      var j := i;
      while j > 0 && !leq(a[j - 1], a[j])
        invariant 0 <= j <= i
        invariant forall k, l :: 0 <= k < l < j ==> leq(a[k], a[l])
        invariant forall k, l :: j <= k < l <= i ==> leq(a[k], a[l])
        invariant forall k, l :: 0 <= k < j < l <= i ==> leq(a[k], a[l])
        invariant multiset(a[..]) == old(multiset(a[..]))
      {
        Swap(a, j - 1, j);
        j := j - 1;
      }
      i := i + 1;
    }
  }

  /** The row positions `0, 1, ..., n - 1`. */
  function Range(n: nat): (r: seq<nat>)
    ensures |r| == n
    ensures forall i :: 0 <= i < n ==> r[i] == i
  {
    seq(n, i requires 0 <= i < n => i)
  }

  /** `idx` lists each of the positions `0 .. n - 1` exactly once. */
  predicate IsPermutation(idx: seq<nat>, n: nat)
  {
    |idx| == n && multiset(idx) == multiset(Range(n))
  }

  /** A permutation of positions only holds valid positions, each once. */
  lemma {:induction false} PermutationFacts(idx: seq<nat>, n: nat)
    requires IsPermutation(idx, n)
    ensures forall i :: 0 <= i < n ==> idx[i] < n
    ensures forall i, j :: 0 <= i < j < n ==> idx[i] != idx[j]
    ensures forall p :: 0 <= p < n ==> p in idx
  {
    forall i | 0 <= i < n
      ensures idx[i] < n
    {
      assert idx[i] in multiset(Range(n));
    }
    forall i, j | 0 <= i < j < n
      ensures idx[i] != idx[j]
    {
      if idx[i] == idx[j] {
        var v := idx[i];
        assert idx == idx[..i] + [v] + idx[i + 1..j] + [v] + idx[j + 1..];
        assert multiset(idx)[v] >= 2;
        RangeOnce(n, v);
      }
    }
    forall p | 0 <= p < n
      ensures p in idx
    {
      assert Range(n)[p] == p;
      assert p in multiset(Range(n));
    }
  }

  lemma {:induction false} RangeOnce(n: nat, v: nat)
    ensures multiset(Range(n))[v] <= 1
    decreases n
  {
    if n > 0 {
      assert Range(n) == Range(n - 1) + [n - 1];
      RangeOnce(n - 1, v);
      if v == n - 1 {
        assert v !in Range(n - 1);
      }
    }
  }

  /**
   * `np.argsort(keys)` (and `sort_values` on one key): the row positions in
   * an order that sorts the keys by `leq`.
   */
  method ArgSort<K(!new)>(keys: seq<K>, leq: (K, K) -> bool) returns (idx: seq<nat>)
    requires TotalPreorder(leq)
    ensures IsPermutation(idx, |keys|)
    ensures forall i :: 0 <= i < |idx| ==> idx[i] < |keys|
    ensures forall i, j :: 0 <= i < j < |idx| ==> leq(keys[idx[i]], keys[idx[j]])
  {
    var n := |keys|;
    if n == 0 {
      return [];
    }
    var byKey := (p: nat, q: nat) =>
      leq(keys[if p < n then p else 0], keys[if q < n then q else 0]);
    assert TotalPreorder(byKey);
    var a := new nat[n](i => i);
    assert a[..] == Range(n);
    SortInPlace(a, byKey);
    idx := a[..];
    PermutationFacts(idx, n);
  }

  /** Inserts `x` into an ascending sequence of integers. */
  function Insert(x: int, s: seq<int>): (r: seq<int>)
    ensures |r| == |s| + 1
    ensures multiset(r) == multiset(s) + multiset{x}
    decreases |s|
  {
    if |s| == 0 || x <= s[0] then [x] + s
    else
      assert s == [s[0]] + s[1..];
      [s[0]] + Insert(x, s[1..])
  }

  /** The ascending arrangement of a sequence of integers (reference definition). */
  function SortAscending(s: seq<int>): (r: seq<int>)
    ensures |r| == |s|
    ensures multiset(r) == multiset(s)
    decreases |s|
  {
    if |s| == 0 then []
    else
      assert s == [s[0]] + s[1..];
      Insert(s[0], SortAscending(s[1..]))
  }

  predicate Ascending(s: seq<int>)
  {
    forall i, j :: 0 <= i < j < |s| ==> s[i] <= s[j]
  }

  lemma {:induction false} InsertAscending(x: int, s: seq<int>)
    requires Ascending(s)
    ensures Ascending(Insert(x, s))
    decreases |s|
  {
    if |s| > 0 && x > s[0] {
      InsertAscending(x, s[1..]);
      var r := Insert(x, s[1..]);
      forall k | 0 <= k < |r|
        ensures s[0] <= r[k]
      {
        assert r[k] in multiset(r);
        assert r[k] == x || r[k] in multiset(s[1..]);
        if r[k] != x {
          var m :| 0 <= m < |s[1..]| && s[1..][m] == r[k];
        }
      }
    }
  }

  lemma {:induction false} SortAscendingIsAscending(s: seq<int>)
    ensures Ascending(SortAscending(s))
    decreases |s|
  {
    if |s| > 0 {
      SortAscendingIsAscending(s[1..]);
      InsertAscending(s[0], SortAscending(s[1..]));
    }
  }

  /** An ascending sequence is the only ascending arrangement of its bag. */
  lemma {:induction false} SortedUnique(s: seq<int>, t: seq<int>)
    requires Ascending(s) && Ascending(t)
    requires multiset(s) == multiset(t)
    ensures s == t
    decreases |s|
  {
    SameBagSameLength(s, t);
    if |s| > 0 {
      HeadsAgree(s, t);
      TailsSameBag(s, t);
      AscendingTail(s);
      AscendingTail(t);
      SortedUnique(s[1..], t[1..]);
      HeadAndTail(s, t);
    }
  }

  lemma {:induction false} SameBagSameLength<T>(s: seq<T>, t: seq<T>)
    requires multiset(s) == multiset(t)
    ensures |s| == |t|
  {
    assert |s| == |multiset(s)| && |t| == |multiset(t)|;
  }

  lemma {:induction false} HeadsAgree(s: seq<int>, t: seq<int>)
    requires Ascending(s) && Ascending(t)
    requires multiset(s) == multiset(t) && |s| > 0 && |t| > 0
    ensures s[0] == t[0]
  {
    assert s[0] in multiset(s) && t[0] in multiset(t);
    AscendingHeadIsLeast(s, t[0]);
    AscendingHeadIsLeast(t, s[0]);
  }

  lemma {:induction false} TailsSameBag<T>(s: seq<T>, t: seq<T>)
    requires multiset(s) == multiset(t) && |s| > 0 && |t| > 0 && s[0] == t[0]
    ensures multiset(s[1..]) == multiset(t[1..])
  {
    TailBag(s);
    TailBag(t);
  }

  lemma {:induction false} HeadAndTail<T>(s: seq<T>, t: seq<T>)
    requires |s| > 0 && |t| > 0 && s[0] == t[0] && s[1..] == t[1..]
    ensures s == t
  {
    assert s == [s[0]] + s[1..] && t == [t[0]] + t[1..];
  }

  lemma {:induction false} AscendingHeadIsLeast(s: seq<int>, y: int)
    requires Ascending(s) && y in multiset(s)
    ensures s[0] <= y
  {
    var i :| 0 <= i < |s| && s[i] == y;
    if i > 0 {
      assert s[0] <= s[i];
    }
  }

  lemma {:induction false} AscendingTail(s: seq<int>)
    requires Ascending(s) && |s| > 0
    ensures Ascending(s[1..])
  {
    forall i, j | 0 <= i < j < |s| - 1
      ensures s[1..][i] <= s[1..][j]
    {
      assert s[1..][i] == s[i + 1] && s[1..][j] == s[j + 1];
    }
  }

  lemma {:induction false} TailBag<T>(s: seq<T>)
    requires |s| > 0
    ensures multiset(s[1..]) == multiset(s) - multiset{s[0]}
  {
    assert s == [s[0]] + s[1..];
  }

  /** The arrangement a sort produces is the reference one. */
  lemma {:induction false} IsSortAscending(s: seq<int>, r: seq<int>)
    requires Ascending(r) && multiset(r) == multiset(s)
    ensures r == SortAscending(s)
  {
    SortAscendingIsAscending(s);
    SortedUnique(r, SortAscending(s));
  }

  /** Inserts `x` before the first element it is `leq` to. */
  function InsertBy<T>(x: T, s: seq<T>, leq: (T, T) -> bool): (r: seq<T>)
    ensures |r| == |s| + 1
    ensures multiset(r) == multiset(s) + multiset{x}
    decreases |s|
  {
    if |s| == 0 || leq(x, s[0]) then [x] + s
    else
      assert s == [s[0]] + s[1..];
      [s[0]] + InsertBy(x, s[1..], leq)
  }

  /** The arrangement of `s` ordered by `leq`, as a function (an insertion sort). */
  function SortBy<T>(s: seq<T>, leq: (T, T) -> bool): (r: seq<T>)
    ensures |r| == |s|
    ensures multiset(r) == multiset(s)
    decreases |s|
  {
    if |s| == 0 then []
    else
      assert s == [s[0]] + s[1..];
      InsertBy(s[0], SortBy(s[1..], leq), leq)
  }

  lemma {:induction false} InsertBySorted<T(!new)>(x: T, s: seq<T>, leq: (T, T) -> bool)
    requires TotalPreorder(leq) && SortedBy(s, leq)
    ensures SortedBy(InsertBy(x, s, leq), leq)
    decreases |s|
  {
    if |s| > 0 && !leq(x, s[0]) {
      InsertBySorted(x, s[1..], leq);
      var r := InsertBy(x, s[1..], leq);
      forall k | 0 <= k < |r|
        ensures leq(s[0], r[k])
      {
        assert r[k] in multiset(r);
        if r[k] != x {
          assert r[k] in multiset(s[1..]);
          var m :| 0 <= m < |s[1..]| && s[1..][m] == r[k];
          assert s[1..][m] == s[m + 1];
        }
      }
    }
  }

  /** `SortBy` orders its result. */
  lemma {:induction false} SortByIsSorted<T(!new)>(s: seq<T>, leq: (T, T) -> bool)
    requires TotalPreorder(leq)
    ensures SortedBy(SortBy(s, leq), leq)
    decreases |s|
  {
    if |s| > 0 {
      SortByIsSorted(s[1..], leq);
      InsertBySorted(s[0], SortBy(s[1..], leq), leq);
    }
  }

  /** `s[::-1]`. */
  function Reverse<T>(s: seq<T>): (r: seq<T>)
    ensures |r| == |s|
    ensures forall i :: 0 <= i < |s| ==> r[i] == s[|s| - 1 - i]
  {
    seq(|s|, i requires 0 <= i < |s| => s[|s| - 1 - i])
  }

  lemma {:induction false} ReverseMultiset<T>(s: seq<T>)
    ensures multiset(Reverse(s)) == multiset(s)
  {
    var r := Reverse(s);
    if |s| > 0 {
      assert r == Reverse(s[1..]) + [s[0]];
      ReverseMultiset(s[1..]);
      assert s == [s[0]] + s[1..];
    }
  }
}
