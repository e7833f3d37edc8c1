/**
 * The summary table of the paper
 * (scripts/exploratory_analysis/get_numbers_for_paper.py). The issue logs
 * found by the glob are sorted by path and all but the first are read; each
 * gives one row with its numbers of issues, pull requests, comments and
 * distinct authors. The rows are ordered by authors, largest first, and an
 * "all" row adds up the counts and counts the authors of all projects once.
 */
module SummaryNumbers {
  import opened Wrappers
  import opened Strings
  import opened Tally
  import opened Sorting
  import SurvivalProportion

  /** Where the table is written, whatever `--outname` says. */
  const OutName := "latex/summary_data.tex"

  /** The columns of the written table, in order (the "Project" column becomes the index). */
  const Columns := ["Issues", "Pull requests", "Comments", "Authors"]

  /** One row of `issues.tsv` (the columns the summary reads). */
  datatype TicketRow = TicketRow(kind: string, authorName: string)

  /** One project directory with the rows of its issue log and the author names of its comment log. */
  datatype ProjectData = ProjectData(directory: string, tickets: seq<TicketRow>, commentAuthors: seq<string>)

  /** One row of the summary table. */
  datatype SummaryRow = SummaryRow(project: string, issues: int, pullRequests: int, comments: int, authors: int)

  /** The cell of a row under a column name, as the row's dictionary holds it; `None` for an unknown name. */
  function Field(row: SummaryRow, name: string): Option<int>
  {
    if name == "Issues" then Some(row.issues)
    else if name == "Pull requests" then Some(row.pullRequests)
    else if name == "Comments" then Some(row.comments)
    else if name == "Authors" then Some(row.authors)
    else None
  }

  /** `summary_data[columns[1:]]`: the cells of a row in the written column order. */
  function TableCells(row: SummaryRow): (r: seq<int>)
    ensures |r| == |Columns|
    ensures forall k :: 0 <= k < |Columns| ==> Field(row, Columns[k]) == Some(r[k])
  {
    [row.issues, row.pullRequests, row.comments, row.authors]
  }

  /** The path of the project's issue log. */
  function PathOf(d: ProjectData): string
  {
    SurvivalProportion.GlobPath(d.directory)
  }

  /** `filename.split("/")[-2]`; IndexError when the path has no '/'. */
  function ProjectName(path: string): (r: Result<string>)
    ensures r.Ok? <==> |Split(path, "/")| >= 2
  {
    var parts := Split(path, "/");
    if |parts| >= 2 then Ok(parts[|parts| - 2]) else Err(IndexError)
  }

  /** The project of a globbed path is its directory. */
  lemma {:induction false} ProjectNameOfPath(d: ProjectData)
    requires '/' !in d.directory
    ensures ProjectName(PathOf(d)) == Ok(d.directory)
  {
    SurvivalProportion.GlobPathComponents(d.directory);
  }

  /** `project = filename.split("/")[-2]` for one globbed file. */
  method ReadProjectName(d: ProjectData) returns (project: string)
    requires '/' !in d.directory
    ensures project == d.directory
  {
    ProjectNameOfPath(d);
    project := ProjectName(PathOf(d)).value;
  }

  /** `filenames.sort()`: string order on the paths. */
  predicate PathLeq(a: ProjectData, b: ProjectData)
  {
    LessEq(PathOf(a), PathOf(b))
  }

  lemma {:induction false} PathLeqIsTotalPreorder()
    ensures TotalPreorder(PathLeq)
  {
    forall a, b
      ensures PathLeq(a, b) || PathLeq(b, a)
    {
      LessTrichotomy(PathOf(a), PathOf(b));
    }
    forall a, b, c | PathLeq(a, b) && PathLeq(b, c)
      ensures PathLeq(a, c)
    {
      if PathOf(a) != PathOf(b) && PathOf(b) != PathOf(c) {
        LessTransitive(PathOf(a), PathOf(b), PathOf(c));
      }
    }
  }

  /** `sum(tickets["type"] == kind)`. */
  function CountKind(tickets: seq<TicketRow>, kind: string): (n: nat)
    ensures n <= |tickets|
  {
    if |tickets| == 0 then 0
    else CountKind(tickets[..|tickets| - 1], kind) + (if tickets[|tickets| - 1].kind == kind then 1 else 0)
  }

  /** The distinct author names of a project's comments and tickets. */
  function ProjectAuthors(d: ProjectData): set<string>
  {
    (set c | c in d.commentAuthors) + (set t | t in d.tickets :: t.authorName)
  }

  /** The summary row of one project. */
  function ProjectRow(d: ProjectData): SummaryRow
  {
    SummaryRow(d.directory, CountKind(d.tickets, "issue"), CountKind(d.tickets, "pull_request"),
               |d.commentAuthors|, |ProjectAuthors(d)|)
  }

  /** The authors of all the given projects, each once. */
  function AllAuthors(ds: seq<ProjectData>): set<string>
  {
    if |ds| == 0 then {} else AllAuthors(ds[..|ds| - 1]) + ProjectAuthors(ds[|ds| - 1])
  }

  function IssuesOf(r: SummaryRow): int { r.issues }
  function PullRequestsOf(r: SummaryRow): int { r.pullRequests }
  function CommentsOf(r: SummaryRow): int { r.comments }
  function AuthorsOf(r: SummaryRow): int { r.authors }

  /** The "all" row below the project rows. */
  function TotalRow(rows: seq<SummaryRow>, allAuthors: set<string>): SummaryRow
  {
    SummaryRow("all", Sum(Map(rows, IssuesOf)), Sum(Map(rows, PullRequestsOf)),
               Sum(Map(rows, CommentsOf)), |allAuthors|)
  }

  /** Larger author counts first (`sort_values(by="Authors", ascending=False)`). */
  predicate MoreAuthors(a: SummaryRow, b: SummaryRow)
  {
    a.authors >= b.authors
  }

  /** Reading file `k` adds its row. */
  lemma {:induction false} CollectRowStep(files: seq<ProjectData>, k: nat)
    requires 1 <= k < |files|
    ensures Map(files[1..k + 1], ProjectRow) == Map(files[1..k], ProjectRow) + [ProjectRow(files[k])]
  {
    var done := files[1..k];
    assert files[1..k + 1] == done + [files[k]];
    MapAppend(done, [files[k]], ProjectRow);
    assert Map([files[k]], ProjectRow) == [ProjectRow(files[k])];
  }

  /** Reading file `k` adds its authors. */
  lemma {:induction false} CollectAuthorsStep(files: seq<ProjectData>, k: nat)
    requires 1 <= k < |files|
    ensures AllAuthors(files[1..k + 1]) == AllAuthors(files[1..k]) + ProjectAuthors(files[k])
  {
    var done := files[1..k];
    assert files[1..k + 1] == done + [files[k]];
    AllAuthorsAppend(done, files[k]);
  }

  /** After the first file read, the union is that file's authors. */
  lemma {:induction false} FirstAuthors(files: seq<ProjectData>)
    requires |files| >= 2
    ensures AllAuthors(files[1..2]) == ProjectAuthors(files[1])
  {
    var one := files[1..2];
    assert one[..0] == [];
    assert AllAuthors(one) == AllAuthors(one[..0]) + ProjectAuthors(files[1]);
  }

  lemma {:induction false} AllAuthorsAppend(ds: seq<ProjectData>, d: ProjectData)
    ensures AllAuthors(ds + [d]) == AllAuthors(ds) + ProjectAuthors(d)
  {
    assert (ds + [d])[..|ds|] == ds;
  }

  lemma {:induction false} AllAuthorsContains(ds: seq<ProjectData>, i: nat)
    requires i < |ds|
    ensures ProjectAuthors(ds[i]) <= AllAuthors(ds)
    decreases |ds|
  {
    if i < |ds| - 1 {
      AllAuthorsContains(ds[..|ds| - 1], i);
    }
  }

  lemma {:induction false} AuthorsColumnStep(ds: seq<ProjectData>)
    requires |ds| > 0
    ensures Map(Map(ds, ProjectRow), AuthorsOf)
      == Map(Map(ds[..|ds| - 1], ProjectRow), AuthorsOf) + [|ProjectAuthors(ds[|ds| - 1])|]
  {
    var init, last := ds[..|ds| - 1], ds[|ds| - 1];
    assert ds == init + [last];
    MapAppend(init, [last], ProjectRow);
    assert Map([last], ProjectRow) == [ProjectRow(last)];
    MapAppend(Map(init, ProjectRow), [ProjectRow(last)], AuthorsOf);
    assert Map([ProjectRow(last)], AuthorsOf) == [|ProjectAuthors(last)|];
  }

  lemma {:induction false} AllAuthorsAtMostSum(ds: seq<ProjectData>)
    ensures |AllAuthors(ds)| <= Sum(Map(Map(ds, ProjectRow), AuthorsOf))
    decreases |ds|
  {
    if |ds| > 0 {
      var init := ds[..|ds| - 1];
      AllAuthorsAtMostSum(init);
      AuthorsColumnStep(ds);
      SumAppend(Map(Map(init, ProjectRow), AuthorsOf), [|ProjectAuthors(ds[|ds| - 1])|]);
      UnionSize(AllAuthors(init), ProjectAuthors(ds[|ds| - 1]));
    }
  }

  lemma {:induction false} UnionSize<T>(a: set<T>, b: set<T>)
    ensures |a + b| <= |a| + |b|
  {
    assert |a + b| + |a * b| == |a| + |b|;
  }

  lemma {:induction false} SubsetSize<T>(a: set<T>, b: set<T>)
    requires a <= b
    ensures |a| <= |b|
  {
    assert b == a + (b - a);
    assert |b| == |a| + |b - a|;
  }

  /**
   * The size of the union of the projects' author sets lies between the
   * largest project's author count and the sum of all author counts.
   */
  lemma {:induction false} AllAuthorsBounds(ds: seq<ProjectData>)
    ensures forall i :: 0 <= i < |ds| ==> |ProjectAuthors(ds[i])| <= |AllAuthors(ds)|
    ensures |AllAuthors(ds)| <= Sum(Map(Map(ds, ProjectRow), AuthorsOf))
  {
    forall i | 0 <= i < |ds|
      ensures |ProjectAuthors(ds[i])| <= |AllAuthors(ds)|
    {
      AllAuthorsContains(ds, i);
      SubsetSize(ProjectAuthors(ds[i]), AllAuthors(ds));
    }
    AllAuthorsAtMostSum(ds);
  }

  /** `filenames.sort()`. */
  method SortByPath(files: seq<ProjectData>) returns (sortedFiles: seq<ProjectData>)
    ensures |sortedFiles| == |files|
    ensures multiset(sortedFiles) == multiset(files) && SortedBy(sortedFiles, PathLeq)
  {
    PathLeqIsTotalPreorder();
    var paths := new ProjectData[|files|](i requires 0 <= i < |files| => files[i]);
    assert paths[..] == files;
    SortInPlace(paths, PathLeq);
    sortedFiles := paths[..];
    assert |multiset(sortedFiles)| == |multiset(files)|;
  }

  /**
   * The loop over `filenames[1:]`: one row per file, appended in order, and
   * the running union of the author sets (`None` before the first file).
   */
  method CollectRows(sortedFiles: seq<ProjectData>) returns (rows: seq<SummaryRow>, allAuthors: Option<set<string>>)
    requires forall i :: 0 <= i < |sortedFiles| ==> '/' !in sortedFiles[i].directory
    ensures |sortedFiles| <= 1 ==> rows == [] && allAuthors.None?
    ensures |sortedFiles| >= 2 ==> rows == Map(sortedFiles[1..], ProjectRow) && allAuthors == Some(AllAuthors(sortedFiles[1..]))
  {
    rows, allAuthors := [], None;
    if |sortedFiles| <= 1 {
      return;
    }
    for k := 1 to |sortedFiles|
      invariant rows == Map(sortedFiles[1..k], ProjectRow)
      invariant allAuthors == if k == 1 then None else Some(AllAuthors(sortedFiles[1..k]))
    {
      var d := sortedFiles[k];
      var project := ReadProjectName(d);
      var projectAuthors := ProjectAuthors(d);
      var row := SummaryRow(project, CountKind(d.tickets, "issue"), CountKind(d.tickets, "pull_request"),
                            |d.commentAuthors|, |projectAuthors|);
      assert row == ProjectRow(d);
      CollectRowStep(sortedFiles, k);
      if k == 1 {
        FirstAuthors(sortedFiles);
      } else {
        CollectAuthorsStep(sortedFiles, k);
      }
      rows := rows + [row];
      allAuthors := if allAuthors.None? then Some(projectAuthors) else Some(allAuthors.value + projectAuthors);
    }
    assert sortedFiles[1..|sortedFiles|] == sortedFiles[1..];
  }

  /** `summary_data.sort_values(by="Authors", ascending=False)`. */
  method RankRows(rows: seq<SummaryRow>) returns (ranked: seq<SummaryRow>)
    ensures |ranked| == |rows|
    ensures multiset(ranked) == multiset(rows) && SortedBy(ranked, MoreAuthors)
  {
    var byAuthors := new SummaryRow[|rows|](i requires 0 <= i < |rows| => rows[i]);
    assert byAuthors[..] == rows;
    SortInPlace(byAuthors, MoreAuthors);
    ranked := byAuthors[..];
    assert |multiset(ranked)| == |multiset(rows)|;
  }

  /**
   * The script from the glob to the table. The files are sorted by path
   * (`sortedFiles`) and the first is skipped; with fewer than two files
   * `all_authors` stays `None` and `len(None)` raises TypeError. Otherwise
   * the table holds the remaining projects' rows, most authors first,
   * followed by the "all" row.
   */
  method Summarise(files: seq<ProjectData>) returns (sortedFiles: seq<ProjectData>, r: Result<seq<SummaryRow>>)
    requires forall i :: 0 <= i < |files| ==> '/' !in files[i].directory
    ensures |sortedFiles| == |files|
    ensures multiset(sortedFiles) == multiset(files) && SortedBy(sortedFiles, PathLeq)
    ensures r.Ok? <==> |files| >= 2
    ensures r.Err? ==> r.error == TypeError
    ensures r.Ok? ==>
      var read := sortedFiles[1..];
      var table := r.value;
      && |table| == |files|
      && multiset(table[..|read|]) == multiset(Map(read, ProjectRow))
      && SortedBy(table[..|read|], MoreAuthors)
      && table[|read|] == TotalRow(table[..|read|], AllAuthors(read))
  {
    sortedFiles := SortByPath(files);
    forall i | 0 <= i < |sortedFiles|
      ensures '/' !in sortedFiles[i].directory
    {
      assert sortedFiles[i] in multiset(files);
    }
    var rows, allAuthors := CollectRows(sortedFiles);
    if allAuthors.None? {
      return sortedFiles, Err(TypeError);
    }
    var ranked := RankRows(rows);
    r := Ok(ranked + [TotalRow(ranked, allAuthors.value)]);
    assert r.value[..|ranked|] == ranked;
  }

  /**
   * The "all" row's author count is at least every project row's and at
   * most the sum of the Authors column.
   */
  lemma {:induction false} TotalAuthorsBounds(read: seq<ProjectData>, table: seq<SummaryRow>)
    requires multiset(table) == multiset(Map(read, ProjectRow))
    ensures forall i :: 0 <= i < |table| ==> table[i].authors <= TotalRow(table, AllAuthors(read)).authors
    ensures TotalRow(table, AllAuthors(read)).authors <= Sum(Map(table, AuthorsOf))
  {
    AllAuthorsBounds(read);
    forall i | 0 <= i < |table|
      ensures table[i].authors <= |AllAuthors(read)|
    {
      assert table[i] in multiset(Map(read, ProjectRow));
      var j :| 0 <= j < |read| && Map(read, ProjectRow)[j] == table[i];
    }
    MapPermutation(table, Map(read, ProjectRow), AuthorsOf);
    SumPermutation(Map(table, AuthorsOf), Map(Map(read, ProjectRow), AuthorsOf));
  }

  /** The output path does not depend on the `--outname` argument. */
  function OutputPath(outnameArgument: Option<string>): (path: string)
    ensures path == "latex/summary_data.tex"
  {
    OutName
  }
}
