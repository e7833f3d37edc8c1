/**
 * The per-project gratitude time course
 * (scripts/visualizations/figure_supp_gratitude_timecourse_by_projects.py).
 * The rows of the model estimates whose term mentions the project are kept
 * and sorted by term; each term is split into a year, a ticket category
 * and an author group; the left panel draws the rows of the "member"
 * group and the right panel all other rows, one series per category.
 */
module GratitudeTimecourse {
  import opened Wrappers
  import opened Strings
  import opened Sorting
  import opened Tally

  const TypeTag := ":type"
  const GroupTag := ":author_group"
  const YearTag := ":year"

  /** The author group of the left panel. */
  const Member := "member"

  /** One row of the model estimates: its term (the row label) and the two plotted values. */
  datatype EstimateRow = EstimateRow(term: string, estimate: real, stdError: real)

  /** `[project in s for s in model_results.index]` applied as a row mask, in row order. */
  function Matching(rows: seq<EstimateRow>, project: string): (r: seq<EstimateRow>)
    ensures |r| <= |rows|
    ensures forall x :: x in r <==> x in rows && Contains(x.term, project)
    decreases |rows|
  {
    if |rows| == 0 then []
    else
      assert rows == [rows[0]] + rows[1..];
      (if Contains(rows[0].term, project) then [rows[0]] else []) + Matching(rows[1..], project)
  }

  /** The index order of `sort_index`: terms in Python's string order. */
  predicate TermLeq(x: EstimateRow, y: EstimateRow)
  {
    LessEq(x.term, y.term)
  }

  lemma {:induction false} TermLeqIsTotalPreorder()
    ensures TotalPreorder(TermLeq)
  {
    forall x: EstimateRow, y: EstimateRow
      ensures TermLeq(x, y) || TermLeq(y, x)
    {
      LessTrichotomy(x.term, y.term);
    }
    forall x: EstimateRow, y: EstimateRow, z: EstimateRow | TermLeq(x, y) && TermLeq(y, z)
      ensures TermLeq(x, z)
    {
      if Less(x.term, y.term) && Less(y.term, z.term) {
        LessTransitive(x.term, y.term, z.term);
      }
    }
  }

  /** `model_results[mask].sort_index()`. */
  function ProjectRows(rows: seq<EstimateRow>, project: string): seq<EstimateRow>
  {
    SortBy(Matching(rows, project), TermLeq)
  }

  /**
   * The project's rows are exactly the rows whose term contains the
   * project name, each kept as often as it occurs, in term order.
   */
  lemma {:induction false} ProjectRowsFacts(rows: seq<EstimateRow>, project: string)
    ensures var r := ProjectRows(rows, project);
      && multiset(r) == multiset(Matching(rows, project))
      && (forall x :: x in r <==> x in rows && Contains(x.term, project))
      && SortedBy(r, TermLeq)
  {
    var r := ProjectRows(rows, project);
    TermLeqIsTotalPreorder();
    SortByIsSorted(Matching(rows, project), TermLeq);
    forall x
      ensures x in r <==> x in Matching(rows, project)
    {
      assert x in r <==> x in multiset(r);
    }
  }

  /** `int(i.split(":year")[-1])`: ValueError when the text after the last ":year" is not an integer. */
  function YearOf(term: string): (r: Result<int>)
    ensures r.Ok? <==> ParseInt(Last(Split(term, YearTag))).Some?
    ensures r.Err? ==> r.error.ValueError?
  {
    var n := ParseInt(Last(Split(term, YearTag)));
    if n.None? then Err(ValueError("invalid literal for int() with base 10")) else Ok(n.value)
  }

  /** `i.split(":type")[-1].split(":year")[0].split(":author_group")[0]`. */
  function CategoryOf(term: string): string
  {
    Split(Split(Last(Split(term, TypeTag)), YearTag)[0], GroupTag)[0]
  }

  /** `i.split(":author_group")[-1].split(":year")[0]`. */
  function MembershipOf(term: string): string
  {
    Split(Last(Split(term, GroupTag)), YearTag)[0]
  }

  /** The category names no author group and the group names no year. */
  lemma {:induction false} FieldsAreCut(term: string)
    ensures !Contains(CategoryOf(term), GroupTag)
    ensures !Contains(MembershipOf(term), YearTag)
  {
    SplitPiecesFree(Split(Last(Split(term, TypeTag)), YearTag)[0], GroupTag, 0);
    SplitPiecesFree(Last(Split(term, GroupTag)), YearTag, 0);
  }

  /** The text after the group tag: the group, the year tag and the year. */
  function GroupAndYear(group: string, year: nat): string
  {
    group + (YearTag + NatToString(year))
  }

  /** The text after the type tag. */
  function CategoryGroupYear(category: string, group: string, year: nat): string
  {
    category + (GroupTag + GroupAndYear(group, year))
  }

  /** A term of the form `<prefix>:type<category>:author_group<group>:year<year>`. */
  function Term(prefix: string, category: string, group: string, year: nat): string
  {
    prefix + (TypeTag + CategoryGroupYear(category, group, year))
  }

  /** A text without ':' starts no occurrence of a tag. */
  lemma {:induction false} ColonFreeSkipped(p: string, rest: string, sep: string)
    requires ':' !in p && |sep| > 0 && sep[0] == ':'
    ensures forall j :: 0 <= j < |p| ==> !OccursAt(p + rest, sep, j)
  {
    forall j | 0 <= j < |p|
      ensures !OccursAt(p + rest, sep, j)
    {
      if j + |sep| <= |p + rest| {
        assert (p + rest)[j..j + |sep|][0] == p[j];
      }
    }
  }

  /** One tag starts no occurrence of another whose second character differs. */
  lemma {:induction false} TagSkipped(tag: string, rest: string, sep: string)
    requires |tag| >= 2 && tag[0] == ':' && ':' !in tag[1..]
    requires |sep| >= 2 && sep[0] == ':' && tag[1] != sep[1]
    ensures forall j :: 0 <= j < |tag| ==> !OccursAt(tag + rest, sep, j)
  {
    forall j | 0 <= j < |tag|
      ensures !OccursAt(tag + rest, sep, j)
    {
      if j + |sep| <= |tag + rest| {
        var w := (tag + rest)[j..j + |sep|];
        if j == 0 {
          assert w[1] == tag[1];
        } else {
          assert w[0] == tag[1..][j - 1];
        }
      }
    }
  }

  /** A text without ':' is a single piece for every tag. */
  lemma {:induction false} ColonFreeWhole(s: string, sep: string)
    requires ':' !in s && |sep| > 0 && sep[0] == ':'
    ensures Split(s, sep) == [s]
  {
    FirstCharAbsent(s, sep);
    SplitWithoutSeparator(s, sep);
  }

  lemma {:induction false} TagsDiffer()
    ensures ':' !in TypeTag[1..] && ':' !in GroupTag[1..] && ':' !in YearTag[1..]
    ensures TypeTag[1] == 't' && GroupTag[1] == 'a' && YearTag[1] == 'y'
  {
  }

  /** Text without ':' in front of a string joins its first piece for every tag. */
  lemma {:induction false} ColonFreeShift(p: string, rest: string, sep: string)
    requires ':' !in p && |sep| > 0 && sep[0] == ':'
    ensures Split(p + rest, sep) == [p + Split(rest, sep)[0]] + Split(rest, sep)[1..]
  {
    ColonFreeSkipped(p, rest, sep);
    SplitShift(p, rest, sep);
  }

  /** A tag in front of a string joins its first piece for every other tag. */
  lemma {:induction false} TagShift(tag: string, rest: string, sep: string)
    requires |tag| >= 2 && tag[0] == ':' && ':' !in tag[1..]
    requires |sep| >= 2 && sep[0] == ':' && tag[1] != sep[1]
    ensures Split(tag + rest, sep) == [tag + Split(rest, sep)[0]] + Split(rest, sep)[1..]
  {
    TagSkipped(tag, rest, sep);
    SplitShift(tag, rest, sep);
  }

  /** The group-and-year text splits at the year tag into the group and the year. */
  lemma {:induction false} GroupAndYearAtYear(group: string, year: nat)
    requires ':' !in group
    ensures Split(GroupAndYear(group, year), YearTag) == [group, NatToString(year)]
  {
    var y := NatToString(year);
    NoOtherCharInDigits(':', year);
    ColonFreeWhole(y, YearTag);
    SplitAtStart(YearTag, y);
    ColonFreeShift(group, YearTag + y, YearTag);
  }

  /** Neither the group nor the year holds another tag. */
  lemma {:induction false} GroupAndYearWhole(group: string, year: nat, sep: string)
    requires ':' !in group
    requires sep == GroupTag || sep == TypeTag
    ensures Split(GroupAndYear(group, year), sep) == [GroupAndYear(group, year)]
  {
    var y := NatToString(year);
    NoOtherCharInDigits(':', year);
    TagsDiffer();
    ColonFreeWhole(y, sep);
    TagShift(YearTag, y, sep);
    ColonFreeShift(group, YearTag + y, sep);
  }

  /** The text after the type tag splits at the year tag before the year. */
  lemma {:induction false} CategoryGroupYearAtYear(category: string, group: string, year: nat)
    requires ':' !in category && ':' !in group
    ensures Split(CategoryGroupYear(category, group, year), YearTag) == [category + (GroupTag + group), NatToString(year)]
  {
    var b := GroupAndYear(group, year);
    GroupAndYearAtYear(group, year);
    TagsDiffer();
    TagShift(GroupTag, b, YearTag);
    ColonFreeShift(category, GroupTag + b, YearTag);
  }

  /** The text after the type tag splits at the group tag after the category. */
  lemma {:induction false} CategoryGroupYearAtGroup(category: string, group: string, year: nat)
    requires ':' !in category && ':' !in group
    ensures Split(CategoryGroupYear(category, group, year), GroupTag) == [category, GroupAndYear(group, year)]
  {
    var b := GroupAndYear(group, year);
    GroupAndYearWhole(group, year, GroupTag);
    SplitAtStart(GroupTag, b);
    ColonFreeShift(category, GroupTag + b, GroupTag);
    assert category + "" == category;
  }

  /** The text after the type tag holds no second type tag. */
  lemma {:induction false} CategoryGroupYearWhole(category: string, group: string, year: nat)
    requires ':' !in category && ':' !in group
    ensures Split(CategoryGroupYear(category, group, year), TypeTag) == [CategoryGroupYear(category, group, year)]
  {
    var b := GroupAndYear(group, year);
    GroupAndYearWhole(group, year, TypeTag);
    TagsDiffer();
    TagShift(GroupTag, b, TypeTag);
    ColonFreeShift(category, GroupTag + b, TypeTag);
  }

  /** The category is the text between the type tag and the group tag. */
  lemma {:induction false} CategoryOfTerm(prefix: string, category: string, group: string, year: nat)
    requires ':' !in prefix && ':' !in category && ':' !in group
    ensures CategoryOf(Term(prefix, category, group, year)) == category
  {
    var d := CategoryGroupYear(category, group, year);
    CategoryGroupYearWhole(category, group, year);
    SplitAtStart(TypeTag, d);
    ColonFreeShift(prefix, TypeTag + d, TypeTag);
    assert Last(Split(Term(prefix, category, group, year), TypeTag)) == d;
    CategoryGroupYearAtYear(category, group, year);
    ColonFreeWhole(group, GroupTag);
    SplitAtStart(GroupTag, group);
    ColonFreeShift(category, GroupTag + group, GroupTag);
  }

  /** The author group is the text between the group tag and the year tag. */
  lemma {:induction false} MembershipOfTerm(prefix: string, category: string, group: string, year: nat)
    requires ':' !in prefix && ':' !in category && ':' !in group
    ensures MembershipOf(Term(prefix, category, group, year)) == group
  {
    var d := CategoryGroupYear(category, group, year);
    CategoryGroupYearAtGroup(category, group, year);
    TagsDiffer();
    TagShift(TypeTag, d, GroupTag);
    ColonFreeShift(prefix, TypeTag + d, GroupTag);
    assert Last(Split(Term(prefix, category, group, year), GroupTag)) == GroupAndYear(group, year);
    GroupAndYearAtYear(group, year);
  }

  /** The year is the number after the year tag. */
  lemma {:induction false} YearOfTerm(prefix: string, category: string, group: string, year: nat)
    requires ':' !in prefix && ':' !in category && ':' !in group
    ensures YearOf(Term(prefix, category, group, year)) == Ok(year)
  {
    var d := CategoryGroupYear(category, group, year);
    CategoryGroupYearAtYear(category, group, year);
    TagsDiffer();
    TagShift(TypeTag, d, YearTag);
    ColonFreeShift(prefix, TypeTag + d, YearTag);
    assert Last(Split(Term(prefix, category, group, year), YearTag)) == NatToString(year);
    ParseNatToString(year);
  }

  /** Each field of a term reads back the value it was built from. */
  lemma {:induction false} TermRoundTrip(prefix: string, category: string, group: string, year: nat)
    requires ':' !in prefix && ':' !in category && ':' !in group
    ensures var t := Term(prefix, category, group, year);
      YearOf(t) == Ok(year) && CategoryOf(t) == category && MembershipOf(t) == group
  {
    YearOfTerm(prefix, category, group, year);
    CategoryOfTerm(prefix, category, group, year);
    MembershipOfTerm(prefix, category, group, year);
  }

  /** The terms of the rows. */
  function Terms(rows: seq<EstimateRow>): (r: seq<string>)
    ensures |r| == |rows| && forall i :: 0 <= i < |rows| ==> r[i] == rows[i].term
  {
    seq(|rows|, i requires 0 <= i < |rows| => rows[i].term)
  }

  /** The `categories` array. */
  function Categories(rows: seq<EstimateRow>): (r: seq<string>)
    ensures |r| == |rows| && forall i :: 0 <= i < |rows| ==> r[i] == CategoryOf(rows[i].term)
  {
    seq(|rows|, i requires 0 <= i < |rows| => CategoryOf(rows[i].term))
  }

  /** `membership == "member"`: the left panel. */
  function MemberMask(rows: seq<EstimateRow>): (m: seq<bool>)
    ensures |m| == |rows| && forall i :: 0 <= i < |rows| ==> (m[i] <==> MembershipOf(rows[i].term) == Member)
  {
    seq(|rows|, i requires 0 <= i < |rows| => MembershipOf(rows[i].term) == Member)
  }

  /** `~membership_mask`: the right panel. */
  function Complement(m: seq<bool>): (r: seq<bool>)
    ensures |r| == |m| && forall i :: 0 <= i < |m| ==> r[i] == !m[i]
  {
    seq(|m|, i requires 0 <= i < |m| => !m[i])
  }

  /** `(categories == category) & membership_mask`: one series of a panel. */
  function SeriesMask(categories: seq<string>, category: string, panel: seq<bool>): (r: seq<bool>)
    requires |categories| == |panel|
    ensures |r| == |panel|
  {
    seq(|panel|, i requires 0 <= i < |panel| => categories[i] == category && panel[i])
  }

  /** Every row is drawn in exactly one panel, the left one iff its group is exactly "member". */
  lemma {:induction false} PanelsPartitionRows(rows: seq<EstimateRow>, i: nat)
    requires i < |rows|
    ensures MemberMask(rows)[i] != Complement(MemberMask(rows))[i]
    ensures MemberMask(rows)[i] <==> MembershipOf(rows[i].term) == Member
  {
  }

  /** Within a panel, a row belongs to the series of its own category and to no other. */
  lemma {:induction false} SeriesOfRow(categories: seq<string>, panel: seq<bool>, category: string, i: nat)
    requires |categories| == |panel| && i < |panel|
    ensures SeriesMask(categories, category, panel)[i] <==> panel[i] && category == categories[i]
    ensures panel[i] ==> categories[i] in Distinct(categories)
  {
  }

  /** The number of the first `k` rows that a mask selects. */
  function Selected(m: seq<bool>, k: nat): (n: nat)
    requires k <= |m|
    ensures n <= k
  {
    if k == 0 then 0 else Selected(m, k - 1) + (if m[k - 1] then 1 else 0)
  }

  /** The rows among the first `k` that the series of the listed categories draw, summed. */
  function SeriesTotal(categories: seq<string>, panel: seq<bool>, cs: seq<string>, k: nat): nat
    requires |categories| == |panel| && k <= |panel|
    decreases |cs|
  {
    if |cs| == 0 then 0
    else SeriesTotal(categories, panel, cs[..|cs| - 1], k) + Selected(SeriesMask(categories, cs[|cs| - 1], panel), k)
  }

  /** How often `c` is listed. */
  function Listed(cs: seq<string>, c: string): nat
    decreases |cs|
  {
    if |cs| == 0 then 0 else Listed(cs[..|cs| - 1], c) + (if cs[|cs| - 1] == c then 1 else 0)
  }

  lemma {:induction false} ListedOnce(cs: seq<string>, c: string)
    requires forall a, b :: 0 <= a < b < |cs| ==> cs[a] != cs[b]
    ensures Listed(cs, c) == if c in cs then 1 else 0
    decreases |cs|
  {
    if |cs| > 0 {
      var init := cs[..|cs| - 1];
      ListedOnce(init, c);
      assert cs == init + [cs[|cs| - 1]];
      if cs[|cs| - 1] == c {
        assert c !in init by {
          forall a | 0 <= a < |init|
            ensures init[a] != c
          {
            assert init[a] == cs[a];
          }
        }
      }
    }
  }

  /** Adding row `k` adds it once to the series of every listed category that matches it. */
  lemma {:induction false} SeriesTotalStep(categories: seq<string>, panel: seq<bool>, cs: seq<string>, k: nat)
    requires |categories| == |panel| && k < |panel|
    ensures SeriesTotal(categories, panel, cs, k + 1)
      == SeriesTotal(categories, panel, cs, k) + (if panel[k] then Listed(cs, categories[k]) else 0)
    decreases |cs|
  {
    if |cs| > 0 {
      SeriesTotalStep(categories, panel, cs[..|cs| - 1], k);
    }
  }

  /**
   * Series for a list of distinct categories that names every category of
   * the first `k` rows together draw each of those rows of the panel once.
   */
  lemma {:induction false} SeriesCover(categories: seq<string>, panel: seq<bool>, cs: seq<string>, k: nat)
    requires |categories| == |panel| && k <= |panel|
    requires forall a, b :: 0 <= a < b < |cs| ==> cs[a] != cs[b]
    requires forall i :: 0 <= i < k ==> categories[i] in cs
    ensures SeriesTotal(categories, panel, cs, k) == Selected(panel, k)
  {
    if k > 0 {
      SeriesCover(categories, panel, cs, k - 1);
      SeriesTotalStep(categories, panel, cs, k - 1);
      ListedOnce(cs, categories[k - 1]);
      assert Selected(panel, k) == Selected(panel, k - 1) + (if panel[k - 1] then 1 else 0);
    } else {
      NoRowsNoTotal(categories, panel, cs);
    }
  }

  lemma {:induction false} NoRowsNoTotal(categories: seq<string>, panel: seq<bool>, cs: seq<string>)
    requires |categories| == |panel|
    ensures SeriesTotal(categories, panel, cs, 0) == 0
    decreases |cs|
  {
    if |cs| > 0 {
      NoRowsNoTotal(categories, panel, cs[..|cs| - 1]);
    }
  }

  /**
   * The series of a panel, one per distinct category, together draw every
   * row of the panel exactly once. `Distinct` lists the categories in order
   * of first appearance where `np.unique` sorts them; only the drawing and
   * legend order differ, and the total does not depend on it.
   */
  lemma {:induction false} SeriesCoverPanel(categories: seq<string>, panel: seq<bool>)
    requires |categories| == |panel|
    ensures SeriesTotal(categories, panel, Distinct(categories), |panel|) == Selected(panel, |panel|)
  {
    SeriesCover(categories, panel, Distinct(categories), |panel|);
  }

  /**
   * The figure's rows for one project: the kept and sorted rows, their
   * years (or the first ValueError), categories and panel masks.
   */
  datatype Panels = Panels(rows: seq<EstimateRow>, years: seq<int>, categories: seq<string>, member: seq<bool>, nonmember: seq<bool>)

  function ProjectPanels(all: seq<EstimateRow>, project: string): (r: Result<Panels>)
    ensures var rows := ProjectRows(all, project);
      && (r.Ok? <==> forall i :: 0 <= i < |rows| ==> YearOf(rows[i].term).Ok?)
      && (r.Ok? ==> r.value.rows == rows && |r.value.years| == |rows| && |r.value.categories| == |rows|
                    && |r.value.member| == |rows| && |r.value.nonmember| == |rows|)
  {
    var rows := ProjectRows(all, project);
    var years := Collect(Terms(rows), YearOf);
    if years.Err? then Err(years.error)
    else
      var member := MemberMask(rows);
      Ok(Panels(rows, years.value, Categories(rows), member, Complement(member)))
  }

  /**
   * Every kept row is drawn in exactly one panel and, within it, in exactly
   * one series; the two panels together draw all kept rows.
   */
  lemma {:induction false} PanelsDrawEveryRowOnce(all: seq<EstimateRow>, project: string)
    requires ProjectPanels(all, project).Ok?
    ensures var p := ProjectPanels(all, project).value;
      && SeriesTotal(p.categories, p.member, Distinct(p.categories), |p.rows|) == Selected(p.member, |p.rows|)
      && SeriesTotal(p.categories, p.nonmember, Distinct(p.categories), |p.rows|) == Selected(p.nonmember, |p.rows|)
      && Selected(p.member, |p.rows|) + Selected(p.nonmember, |p.rows|) == |p.rows|
  {
    var p := ProjectPanels(all, project).value;
    SeriesCoverPanel(p.categories, p.member);
    SeriesCoverPanel(p.categories, p.nonmember);
    ComplementsAddUp(p.member, |p.rows|);
  }

  lemma {:induction false} ComplementsAddUp(m: seq<bool>, k: nat)
    requires k <= |m|
    ensures Selected(m, k) + Selected(Complement(m), k) == k
  {
    if k > 0 {
      ComplementsAddUp(m, k - 1);
    }
  }
}
