/**
 * The few operations on Python `str` values that the analysis scripts rely
 * on: the ordering used by `<` (timestamps read from TSV are compared as
 * strings), substring search, `str.split` with a non-empty separator, and
 * `int()` applied to a string of digits.
 */
module Strings {
  import opened Wrappers

  /** Python's `a < b` on `str`: lexicographic comparison by code point. */
  predicate Less(a: string, b: string)
    decreases |a|
  {
    if |a| == 0 then |b| > 0
    else if |b| == 0 then false
    else if a[0] != b[0] then a[0] < b[0]
    else Less(a[1..], b[1..])
  }

  lemma {:induction false} LessIrreflexive(a: string)
    ensures !Less(a, a)
    decreases |a|
  {
    if |a| > 0 {
      LessIrreflexive(a[1..]);
    }
  }

  lemma {:induction false} LessTransitive(a: string, b: string, c: string)
    requires Less(a, b) && Less(b, c)
    ensures Less(a, c)
    decreases |a|
  {
    if |a| > 0 && |b| > 0 && |c| > 0 && a[0] == b[0] && b[0] == c[0] {
      LessTransitive(a[1..], b[1..], c[1..]);
    }
  }

  /** Any two strings are equal or ordered one way or the other. */
  lemma {:induction false} LessTrichotomy(a: string, b: string)
    ensures a == b || Less(a, b) || Less(b, a)
    decreases |a|
  {
    if |a| > 0 && |b| > 0 && a[0] == b[0] {
      LessTrichotomy(a[1..], b[1..]);
      if a[1..] == b[1..] {
        assert a == [a[0]] + a[1..] && b == [b[0]] + b[1..];
      }
    }
  }

  lemma {:induction false} LessAsymmetric(a: string, b: string)
    requires Less(a, b)
    ensures !Less(b, a)
  {
    if Less(b, a) {
      LessTransitive(a, b, a);
      LessIrreflexive(a);
    }
  }

  /** Python's `a <= b` on `str`. */
  predicate LessEq(a: string, b: string)
  {
    a == b || Less(a, b)
  }

  /** `sep` occurs in `s` starting at position `i`. */
  predicate OccursAt(s: string, sep: string, i: nat)
  {
    i + |sep| <= |s| && s[i..i + |sep|] == sep
  }

  /** The position of the first occurrence of `t` in `s` (Python's `str.find`, with `None` for -1). */
  function Find(s: string, t: string): (r: Option<nat>)
    ensures r.Some? ==> OccursAt(s, t, r.value)
    ensures r.Some? ==> forall j :: 0 <= j < r.value ==> !OccursAt(s, t, j)
    ensures r.None? ==> forall j :: 0 <= j <= |s| ==> !OccursAt(s, t, j)
    decreases |s|
  {
    if |s| < |t| then None
    else if s[..|t|] == t then Some(0)
    else match Find(s[1..], t)
      case None =>
        assert forall j :: 0 < j <= |s| ==> (OccursAt(s, t, j) <==> OccursAt(s[1..], t, j - 1));
        None
      case Some(k) =>
        assert forall j :: 0 < j <= k ==> (OccursAt(s, t, j) <==> OccursAt(s[1..], t, j - 1));
        Some(k + 1)
  }

  /** Python's `t in s` for strings. */
  predicate Contains(s: string, t: string)
  {
    Find(s, t).Some?
  }

  lemma {:induction false} ContainsIff(s: string, t: string)
    ensures Contains(s, t) <==> exists i :: 0 <= i <= |s| && OccursAt(s, t, i)
  {
    if Contains(s, t) {
      assert OccursAt(s, t, Find(s, t).value);
    }
  }

  /** Python's `s.split(sep)` for a non-empty separator. */
  function Split(s: string, sep: string): (parts: seq<string>)
    requires |sep| > 0
    ensures |parts| >= 1
    decreases |s|
  {
    match Find(s, sep)
    case None => [s]
    case Some(k) => [s[..k]] + Split(s[k + |sep|..], sep)
  }

  /** Python's `sep.join(parts)`. */
  function Join(parts: seq<string>, sep: string): string
    decreases |parts|
  {
    if |parts| == 0 then ""
    else if |parts| == 1 then parts[0]
    else parts[0] + sep + Join(parts[1..], sep)
  }

  /** Splitting and joining with the same separator gives back the string. */
  lemma {:induction false} JoinSplit(s: string, sep: string)
    requires |sep| > 0
    ensures Join(Split(s, sep), sep) == s
    decreases |s|
  {
    match Find(s, sep)
    case None =>
    case Some(k) =>
      var rest := s[k + |sep|..];
      JoinSplit(rest, sep);
      var parts := Split(rest, sep);
      SplitFound(s, sep, k);
      assert Join([s[..k]] + parts, sep) == s[..k] + sep + Join(parts, sep) by {
        assert ([s[..k]] + parts)[1..] == parts;
      }
      assert s[k..k + |sep|] == sep;
      assert s == s[..k] + sep + rest;
  }

  /** No piece produced by `Split` contains the separator. */
  lemma {:induction false} SplitPiecesFree(s: string, sep: string, i: nat)
    requires |sep| > 0
    requires i < |Split(s, sep)|
    ensures !Contains(Split(s, sep)[i], sep)
    decreases |s|
  {
    match Find(s, sep)
    case None =>
      SplitUnfound(s, sep);
    case Some(k) =>
      SplitFound(s, sep, k);
      if i == 0 {
        FirstPieceFree(s, sep, k);
      } else {
        SplitPiecesFree(s[k + |sep|..], sep, i - 1);
      }
  }

  /** The text before the first occurrence holds no occurrence. */
  lemma {:induction false} FirstPieceFree(s: string, sep: string, k: nat)
    requires |sep| > 0 && Find(s, sep) == Some(k)
    ensures !Contains(s[..k], sep)
  {
    var p := s[..k];
    forall j | 0 <= j <= |p|
      ensures !OccursAt(p, sep, j)
    {
      if j + |sep| <= |p| {
        assert p[j..j + |sep|] == s[j..j + |sep|];
        assert j < k && !OccursAt(s, sep, j);
      }
    }
    ContainsIff(p, sep);
  }

  /** A string without the separator splits into itself alone. */
  lemma {:induction false} SplitWithoutSeparator(s: string, sep: string)
    requires |sep| > 0 && !Contains(s, sep)
    ensures Split(s, sep) == [s]
  {
  }

  /** A string without a given character splits at it into itself alone. */
  lemma {:induction false} SplitAtAbsentChar(s: string, c: char)
    requires c !in s
    ensures Split(s, [c]) == [s]
  {
    forall j | 0 <= j <= |s|
      ensures !OccursAt(s, [c], j)
    {
      if j < |s| {
        assert s[j..j + 1][0] == s[j] != c;
      }
    }
    ContainsIff(s, [c]);
  }

  /** Splitting at a one-character separator peels off the text before its first occurrence. */
  lemma {:induction false} SplitAtFirst(a: string, c: char, rest: string)
    requires c !in a
    ensures Split(a + [c] + rest, [c]) == [a] + Split(rest, [c])
  {
    var s := a + [c] + rest;
    assert OccursAt(s, [c], |a|) by {
      assert s[|a|..|a| + 1] == [c];
    }
    var k := Find(s, [c]).value;
    assert k <= |a|;
    assert s[k] == c by {
      assert s[k..k + 1] == [c];
    }
    assert s[..k] == a && s[k + 1..] == rest;
  }

  /**
   * Splitting at a separator that does not start inside `a` (nor across its
   * end) peels `a` off as the first piece.
   */
  lemma {:induction false} SplitAtFirstOccurrence(a: string, sep: string, rest: string)
    requires |sep| > 0 && !Contains(a + sep[..|sep| - 1], sep)
    ensures Split(a + sep + rest, sep) == [a] + Split(rest, sep)
  {
    var s := a + sep + rest;
    assert OccursAt(s, sep, |a|) by {
      assert s[|a|..|a| + |sep|] == sep;
    }
    var k := Find(s, sep).value;
    if k < |a| {
      NoEarlierOccurrence(a, sep, rest, k);
    }
    SplitFound(s, sep, k);
    assert s[..k] == a && s[k + |sep|..] == rest;
  }

  /** An occurrence in `a + sep + rest` starting inside `a` lies in `a` plus all but the last character of `sep`. */
  lemma {:induction false} NoEarlierOccurrence(a: string, sep: string, rest: string, k: nat)
    requires |sep| > 0 && !Contains(a + sep[..|sep| - 1], sep)
    requires k < |a|
    ensures !OccursAt(a + sep + rest, sep, k)
  {
    var s := a + sep + rest;
    var w := a + sep[..|sep| - 1];
    ContainsIff(w, sep);
    assert !OccursAt(w, sep, k);
    if OccursAt(s, sep, k) {
      assert false;
    }
  }

  /** A string without the first character of `sep` does not contain `sep`. */
  lemma {:induction false} FirstCharAbsent(s: string, sep: string)
    requires |sep| > 0 && sep[0] !in s
    ensures !Contains(s, sep)
  {
    forall j | 0 <= j <= |s|
      ensures !OccursAt(s, sep, j)
    {
      if j + |sep| <= |s| {
        assert s[j..j + |sep|][0] == s[j];
      }
    }
    ContainsIff(s, sep);
  }

  /** The decimal representation of a number holds no character other than digits. */
  lemma {:induction false} NoOtherCharInDigits(c: char, n: nat)
    requires !IsDigit(c)
    ensures c !in NatToString(n)
  {
    var s := NatToString(n);
    forall i | 0 <= i < |s|
      ensures s[i] != c
    {
      assert IsDigit(s[i]);
    }
  }

  /** The first occurrence is the one with no occurrence before it. */
  lemma {:induction false} FirstOccurrence(s: string, sep: string, i: nat)
    requires OccursAt(s, sep, i) && forall j :: 0 <= j < i ==> !OccursAt(s, sep, j)
    ensures Find(s, sep) == Some(i)
  {
  }

  /** A string that starts with the separator splits off an empty first piece. */
  lemma {:induction false} SplitAtStart(sep: string, rest: string)
    requires |sep| > 0
    ensures Split(sep + rest, sep) == [""] + Split(rest, sep)
  {
    var s := sep + rest;
    assert s[..|sep|] == sep;
    assert s[|sep|..] == rest;
  }

  lemma {:induction false} OccursAtShift(p: string, rest: string, sep: string, k: nat)
    ensures OccursAt(p + rest, sep, |p| + k) <==> OccursAt(rest, sep, k)
  {
    if k + |sep| <= |rest| {
      assert (p + rest)[|p| + k..|p| + k + |sep|] == rest[k..k + |sep|];
    }
  }

  /** Where `rest` has its first occurrence, `p + rest` has its first one `|p|` further on. */
  lemma {:induction false} FindShift(p: string, rest: string, sep: string)
    requires forall j :: 0 <= j < |p| ==> !OccursAt(p + rest, sep, j)
    ensures Find(rest, sep).None? ==> Find(p + rest, sep).None?
    ensures Find(rest, sep).Some? ==> Find(p + rest, sep) == Some(|p| + Find(rest, sep).value)
  {
    var s := p + rest;
    var f := Find(rest, sep);
    var bound := if f.None? then |rest| + 1 else f.value;
    forall j | 0 <= j < |p| + bound
      ensures !OccursAt(s, sep, j)
    {
      if j >= |p| {
        OccursAtShift(p, rest, sep, j - |p|);
      }
    }
    if f.Some? {
      OccursAtShift(p, rest, sep, f.value);
      FirstOccurrence(s, sep, |p| + f.value);
    } else {
      assert forall j :: 0 <= j <= |s| ==> !OccursAt(s, sep, j);
    }
  }

  /**
   * Text in front of a string that starts no occurrence of the separator
   * joins the first piece and leaves the other pieces alone.
   */
  lemma {:induction false} SplitShift(p: string, rest: string, sep: string)
    requires |sep| > 0
    requires forall j :: 0 <= j < |p| ==> !OccursAt(p + rest, sep, j)
    ensures Split(p + rest, sep) == [p + Split(rest, sep)[0]] + Split(rest, sep)[1..]
  {
    FindShift(p, rest, sep);
    SplitShiftFound(p, rest, sep);
  }

  lemma {:induction false} SplitShiftFound(p: string, rest: string, sep: string)
    requires |sep| > 0
    requires Find(rest, sep).None? ==> Find(p + rest, sep).None?
    requires Find(rest, sep).Some? ==> Find(p + rest, sep) == Some(|p| + Find(rest, sep).value)
    ensures Split(p + rest, sep) == [p + Split(rest, sep)[0]] + Split(rest, sep)[1..]
  {
    match Find(rest, sep)
    case None =>
      SplitUnfound(rest, sep);
      SplitUnfound(p + rest, sep);
    case Some(k) =>
      SplitShiftAt(p, rest, sep, k);
  }

  lemma {:induction false} SplitShiftAt(p: string, rest: string, sep: string, k: nat)
    requires |sep| > 0
    requires Find(rest, sep) == Some(k) && Find(p + rest, sep) == Some(|p| + k)
    ensures Split(p + rest, sep) == [p + Split(rest, sep)[0]] + Split(rest, sep)[1..]
  {
    var s := p + rest;
    var tail := rest[k + |sep|..];
    SplitFound(rest, sep, k);
    SplitFound(s, sep, |p| + k);
    assert s[|p| + k + |sep|..] == tail;
    assert s[..|p| + k] == p + rest[..k];
    assert Split(rest, sep)[0] == rest[..k];
    assert Split(rest, sep)[1..] == Split(tail, sep);
  }

  /** `Split` when the separator does not occur. */
  lemma {:induction false} SplitUnfound(s: string, sep: string)
    requires |sep| > 0 && Find(s, sep).None?
    ensures Split(s, sep) == [s]
  {
  }

  /** `Split` at the first occurrence `k` of the separator. */
  lemma {:induction false} SplitFound(s: string, sep: string, k: nat)
    requires |sep| > 0 && Find(s, sep) == Some(k)
    ensures k + |sep| <= |s|
    ensures Split(s, sep) == [s[..k]] + Split(s[k + |sep|..], sep)
  {
  }

  /** The last element of a sequence (Python's `xs[-1]`). */
  function Last<T>(xs: seq<T>): T
    requires |xs| > 0
  {
    xs[|xs| - 1]
  }

  /**
   * Python's `s[:-k]` for `k >= 1`: all but the last `k` characters, empty
   * when `s` is shorter. (`s[:-0]` is `s[:0]`, the empty string, which is
   * why `k == 0` is excluded.)
   */
  function DropLast(s: string, k: nat): (r: string)
    requires k > 0
    ensures |r| == if |s| >= k then |s| - k else 0
    ensures r <= s
  {
    if |s| >= k then s[..|s| - k] else ""
  }

  predicate IsDigit(c: char)
  {
    '0' <= c <= '9'
  }

  function DigitValue(c: char): nat
    requires IsDigit(c)
  {
    (c - '0') as nat
  }

  /** Value of a non-empty run of decimal digits. */
  function DigitsValue(s: string): nat
    requires forall i :: 0 <= i < |s| ==> IsDigit(s[i])
    decreases |s|
  {
    if |s| == 0 then 0
    else DigitsValue(s[..|s| - 1]) * 10 + DigitValue(s[|s| - 1])
  }

  /** Decimal representation of a natural number, without leading zeros. */
  function NatToString(n: nat): (s: string)
    ensures |s| > 0
    ensures forall i :: 0 <= i < |s| ==> IsDigit(s[i])
    decreases n
  {
    if n < 10 then [('0' as int + n) as char]
    else NatToString(n / 10) + [('0' as int + n % 10) as char]
  }

  /**
   * Python's `int(s)` on an optionally signed run of digits; `None` where
   * Python raises ValueError.
   */
  function ParseInt(s: string): (r: Option<int>)
    ensures r.Some? ==> |s| > 0
  {
    if |s| > 0 && (s[0] == '-' || s[0] == '+') then
      var d := s[1..];
      if |d| > 0 && forall i :: 0 <= i < |d| ==> IsDigit(d[i]) then
        var v: int := DigitsValue(d);
        Some(if s[0] == '-' then -v else v)
      else None
    else if |s| > 0 && forall i :: 0 <= i < |s| ==> IsDigit(s[i]) then
      Some(DigitsValue(s))
    else None
  }

  /** Parsing the decimal representation of `n` gives back `n`. */
  lemma {:induction false} ParseNatToString(n: nat)
    ensures ParseInt(NatToString(n)) == Some(n)
  {
    DigitsOfNatToString(n);
  }

  lemma {:induction false} DigitsOfNatToString(n: nat)
    ensures DigitsValue(NatToString(n)) == n
    decreases n
  {
    if n >= 10 {
      DigitsOfNatToString(n / 10);
      var s := NatToString(n);
      assert s[..|s| - 1] == NatToString(n / 10);
    }
  }

}
