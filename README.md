# oss-community-health analysis scripts, modelled in Dafny

This project models the exact counting and aggregation steps of the
oss-community-health analysis scripts. It then proves what those steps
promise. Each module follows one script, or one shared primitive the
scripts call:

| module | script | form |
|---|---|---|
| `BusFactor` | `compute_bus_factor` in scripts/survivor_analysis/utils/project_features.py | class for the commit table, whose `author_name` column is overwritten; in-place sort and in-place division on an `array<real>` |
| `Annotate` | `annotate_comments_tickets` in scripts/survivor_analysis/utils/annotate.py | classes for the comment and ticket tables, to which the method adds columns in place |
| `SurvivalCurve` | scripts/survivor_analysis/plot_survival_curve_pull_request.py | functions (the survival list is a comprehension) |
| `SurvivalProportion` | scripts/survivor_analysis/plot_proportion_survival_at_n_pullrequest.py | a method whose loop appends to the label and proportion lists; argsort permutes both |
| `CoContributors` | scripts/visualizations/figure_supp_cocontributors.py | functions for `BᵀB` and the percentages; a method that clears the diagonal of an `array2` in place |
| `CoContributionDistribution` | scripts/visualizations/figure_supp_distribution_cocontributions.py | functions for the grouping and normalisation; a method that orders the project columns |
| `SummaryNumbers` | scripts/exploratory_analysis/get_numbers_for_paper.py | a method whose file loop appends rows and accumulates the author union |
| `PValueTables` | scripts/sentiment_analysis/export_supp_tables_pvalues.py | class `Frame` (labels, columns, cells) changed in place by the `Sig.` overwrites, the index change, the drop and the rename |
| `TimecoursePValues` | scripts/sentiment_analysis/export_supp_timecourse_pvalues.py | functions for label parsing; a method that sorts the rows and reuses the `Frame` steps |
| `GratitudeTimecourse` | scripts/visualizations/figure_supp_gratitude_timecourse_by_projects.py | functions for term parsing and panel masks |
| `Tally` | `np.unique(..., return_counts=True)` | reference functions and a one-pass counting method |
| `Sorting` | `ndarray.sort`, `np.argsort`, `sort_values`, `[::-1]` | in-place sort of an array; argsort; reference sorted arrangements |
| `Strings` | Python `str` order, `split`, `join`, `in`, `int()` | functions and lemmas |
| `Wrappers` | — | `Option`, `Result`, the Python exception raised on an error path |

Some modelling choices apply throughout:

- Ratios, shares and percentages are exact `real` values.
- NaN is a missing value (`None`) in the columns whose type is optional: author names, closing times and p-values. Author ids and timestamps are never missing (see "## Left out").
- A Python exception is an `Err` carrying the exception's kind.
- Reading files, globbing, plotting and writing LaTeX are outside the model. What they produce becomes an input: the rows of a log, the labels of a table, the contribution matrix.

## Model

Paths are relative to the repository root.

| member | source | states |
|---|---|---|
| BusFactor.FillMissingBuckets | scripts/survivor_analysis/utils/project_features.py:21-22 | after the NaN → "" replacement, the "" bucket holds every missing name and every empty name; every other name keeps exactly its own rows |
| BusFactor.CommitFrame.constructor | scripts/survivor_analysis/utils/project_features.py:4 | the commit table passed in holds exactly the given `author_name` column |
| BusFactor.FillMissing | scripts/survivor_analysis/utils/project_features.py:21-22 | one filled name per row (what the names are is BusFactor.FillMissingBuckets) |
| BusFactor.Ranked | scripts/survivor_analysis/utils/project_features.py:23-25 | one ranked count per distinct author (their order and bag are in the lemmas below) |
| BusFactor.Max | scripts/survivor_analysis/utils/project_features.py:26 | `max()` is one of the values and bounds them all |
| BusFactor.DivideByMax | scripts/survivor_analysis/utils/project_features.py:26 | dividing by the maximum keeps one entry per author |
| BusFactor.Shares | scripts/survivor_analysis/utils/project_features.py:26 | a non-empty table has at least one share, one per distinct author |
| BusFactor.MeanZeroIff | scripts/survivor_analysis/utils/project_features.py:27 | a mean is 0 iff its total is 0 |
| BusFactor.ShareIsOneIff | scripts/survivor_analysis/utils/project_features.py:27 | `1 - x/max` is 0 iff x is the maximum |
| BusFactor.ComputeBusFactor | scripts/survivor_analysis/utils/project_features.py:21-28 | overwrites the caller's `author_name` column with the filled names (same length, missing → "", others unchanged) and returns the bus factor of the filled names |
| BusFactor.DefaultConsidersTopFive | scripts/survivor_analysis/utils/project_features.py:4 | with the default `n_committers=5`, the mean runs over the five most active authors, or over all of them when there are fewer |
| BusFactor.RankCounts | scripts/survivor_analysis/utils/project_features.py:24-25 | sorts the counts in place in an array, then reverses them: the fresh array holds the ascending arrangement reversed, as reals |
| BusFactor.DivideByMaxInPlace | scripts/survivor_analysis/utils/project_features.py:26 | `/= max()` in place: every entry becomes its old value over the old maximum |
| BusFactor.CountsNonEmpty | scripts/survivor_analysis/utils/project_features.py:23-26 | a non-empty commit table has at least one author count, so the maximum exists |
| BusFactor.RankedPermutation | scripts/survivor_analysis/utils/project_features.py:23-25 | the ranked counts are a rearrangement of the per-author counts, one per distinct author name |
| BusFactor.RankedDescending | scripts/survivor_analysis/utils/project_features.py:24-25 | after sort and reversal the counts are non-increasing |
| BusFactor.RankedPositive | scripts/survivor_analysis/utils/project_features.py:23 | every count is at least 1 and the counts add up to the number of commit rows |
| BusFactor.RankedTopIsMax | scripts/survivor_analysis/utils/project_features.py:26 | the maximum of the ranked counts is the first one |
| BusFactor.ShareAt | scripts/survivor_analysis/utils/project_features.py:26 | share `i` is count `i` over the top count, with 1 ≤ count `i` ≤ top count |
| BusFactor.TopShareIsOne | scripts/survivor_analysis/utils/project_features.py:26 | after dividing by the maximum the first share is exactly 1 |
| BusFactor.ShareInRange | scripts/survivor_analysis/utils/project_features.py:26 | every share lies in (0, 1] |
| BusFactor.SharesDescending | scripts/survivor_analysis/utils/project_features.py:26 | the shares stay non-increasing |
| BusFactor.SharesFacts | scripts/survivor_analysis/utils/project_features.py:26 | the three facts above together |
| BusFactor.Shortfalls | scripts/survivor_analysis/utils/project_features.py:27 | `1 - shares[:n]` has min(n, number of authors) ≥ 1 entries |
| BusFactor.ShortfallsBounds | scripts/survivor_analysis/utils/project_features.py:27 | the top author's shortfall is 0 and every shortfall lies in [0, 1) |
| BusFactor.BusFactorRange | scripts/survivor_analysis/utils/project_features.py:26-27 | the bus factor lies in [0, 1) |
| BusFactor.ShortfallZeroIff | scripts/survivor_analysis/utils/project_features.py:26-27 | an author's shortfall is 0 iff their count ties with the top count |
| BusFactor.BusFactorZeroIff | scripts/survivor_analysis/utils/project_features.py:26-27 | the bus factor is 0 iff every considered top author ties with the top one (both directions) |
| BusFactor.RankedDependsOnlyOnCounts | scripts/survivor_analysis/utils/project_features.py:24-25 | two tables with the same bag of per-author counts have the same ranked counts |
| BusFactor.BusFactorDependsOnlyOnCounts | scripts/survivor_analysis/utils/project_features.py:23-27 | the bus factor depends only on the bag of per-author counts, not on the names |
| BusFactor.BusFactorRowOrderInvariant | scripts/survivor_analysis/utils/project_features.py:23-27 | reordering the commit rows does not change the bus factor |
| Tally.Distinct | scripts/survivor_analysis/utils/project_features.py:23 | the unique values: no duplicates, each listed value occurs in the column, each row's value is listed |
| Tally.Counts | scripts/survivor_analysis/utils/project_features.py:23 | one count per distinct value |
| Tally.CountUnique | scripts/survivor_analysis/utils/project_features.py:23 | one pass over the rows returns exactly the distinct values and their counts |
| Tally.CountsStepSeen | scripts/survivor_analysis/utils/project_features.py:23 | reading a value already seen adds one to its count and changes nothing else |
| Tally.CountsStepNew | scripts/survivor_analysis/utils/project_features.py:23 | reading a new value appends a count of 1 |
| Tally.CountsPositive | scripts/survivor_analysis/utils/project_features.py:23 | every count is at least 1 |
| Tally.CountsOnePerValue | scripts/survivor_analysis/utils/project_features.py:23 | there is one count per distinct value |
| Tally.CountsSum | scripts/survivor_analysis/utils/project_features.py:23 | the counts add up to the number of rows |
| Tally.CountsSumStep | scripts/survivor_analysis/utils/project_features.py:23 | one more row adds one to the sum of the counts |
| Tally.CountsPermutationInvariant | scripts/survivor_analysis/utils/project_features.py:23 | the bag of counts depends only on the bag of rows |
| Tally.SumPermutation | scripts/exploratory_analysis/get_numbers_for_paper.py:50-55 | a column sum does not depend on the row order |
| Sorting.SortInPlace | scripts/survivor_analysis/utils/project_features.py:24 | `ndarray.sort()`: the array ends up ordered and is a permutation of its old contents |
| Sorting.SortAscending | scripts/survivor_analysis/utils/project_features.py:24 | the reference ascending arrangement has the same length and the same bag |
| Sorting.SortAscendingIsAscending | scripts/survivor_analysis/utils/project_features.py:24 | the reference arrangement is ascending |
| Sorting.SortedUnique | scripts/survivor_analysis/utils/project_features.py:24 | two ascending arrangements of one bag are equal |
| Sorting.IsSortAscending | scripts/survivor_analysis/utils/project_features.py:24 | any ascending rearrangement is the reference one |
| Sorting.Reverse | scripts/survivor_analysis/utils/project_features.py:25 | `[::-1]`: entry `i` is entry `n - 1 - i` of the input |
| Sorting.ReverseMultiset | scripts/survivor_analysis/utils/project_features.py:25 | reversal keeps the bag |
| Sorting.ArgSort | scripts/survivor_analysis/plot_proportion_survival_at_n_pullrequest.py:38 | `np.argsort`: a permutation of the positions along which the keys are in order |
| Sorting.PermutationFacts | scripts/survivor_analysis/plot_proportion_survival_at_n_pullrequest.py:38-42 | a permutation of positions holds every position exactly once, so indexing by it loses and repeats nothing |
| Sorting.SortBy | scripts/visualizations/figure_supp_gratitude_timecourse_by_projects.py:35 | a sort keeps the length and the bag |
| Sorting.SortByIsSorted | scripts/visualizations/figure_supp_gratitude_timecourse_by_projects.py:35 | under a total preorder the result is ordered |
| Strings.LessIrreflexive | scripts/survivor_analysis/utils/annotate.py:43 | Python's string `<` is irreflexive |
| Strings.LessTransitive | scripts/survivor_analysis/utils/annotate.py:43 | Python's string `<` is transitive |
| Strings.LessTrichotomy | scripts/survivor_analysis/utils/annotate.py:43 | any two timestamps are equal or ordered one way |
| Strings.LessAsymmetric | scripts/survivor_analysis/utils/annotate.py:43 | Python's string `<` is asymmetric |
| Strings.JoinSplit | scripts/sentiment_analysis/export_supp_timecourse_pvalues.py:22-24 | `sep.join(s.split(sep)) == s` |
| Strings.Find | scripts/sentiment_analysis/export_supp_timecourse_pvalues.py:20 | the position of the first occurrence of the separator, or none if it does not occur |
| Strings.ContainsIff | scripts/visualizations/figure_supp_gratitude_timecourse_by_projects.py:32 | `t in s` holds iff `t` occurs at some position of `s` |
| Strings.Split | scripts/sentiment_analysis/export_supp_timecourse_pvalues.py:20 | `str.split(sep)` returns at least one piece |
| Strings.FirstOccurrence | scripts/sentiment_analysis/export_supp_timecourse_pvalues.py:20 | an occurrence with none before it is what the search finds |
| Strings.ParseInt | scripts/sentiment_analysis/export_supp_timecourse_pvalues.py:21 | `int()` succeeds only on non-empty text (its round trip is Strings.ParseNatToString) |
| Strings.SplitPiecesFree | scripts/sentiment_analysis/export_supp_timecourse_pvalues.py:20 | no piece of a split contains the separator |
| Strings.SplitWithoutSeparator | scripts/visualizations/figure_supp_gratitude_timecourse_by_projects.py:38-43 | a string without the separator splits into itself alone |
| Strings.SplitAtFirstOccurrence | scripts/sentiment_analysis/export_supp_timecourse_pvalues.py:21 | splitting peels off the text before the first occurrence of the separator |
| Strings.DropLast | scripts/sentiment_analysis/export_supp_timecourse_pvalues.py:20 | for k ≥ 1, `s[:-k]` is a prefix of length max(0, len - k) |
| Strings.ParseNatToString | scripts/sentiment_analysis/export_supp_timecourse_pvalues.py:21 | `int()` of the decimal text of a number gives the number back |
| Annotate.AnnotateCommentsTickets | scripts/survivor_analysis/utils/annotate.py:38-68 | leaves both frames' rows as they were. Each added column has one entry per row: `was_updated` iff created ≠ updated; the two historical counts; the comment ranks; `is_closed` iff closed_at is present |
| Annotate.CommentFrame.constructor | scripts/survivor_analysis/utils/annotate.py:30 | a comment table read from comments.tsv, without the derived columns yet |
| Annotate.TicketFrame.constructor | scripts/survivor_analysis/utils/annotate.py:29 | a ticket table read from issues.tsv, without the derived columns yet |
| Annotate.CountOpenedBefore | scripts/survivor_analysis/utils/annotate.py:42-47 | the count is at most the number of tickets |
| Annotate.HistoricalCounts | scripts/survivor_analysis/utils/annotate.py:42-57 | one count per comment |
| Annotate.CountOpenedBeforeBound | scripts/survivor_analysis/utils/annotate.py:42-57 | a comment's count is at most the number of tickets of that type its author ever opened |
| Annotate.CountOpenedBeforeAppend | scripts/survivor_analysis/utils/annotate.py:42-47 | the count over two ticket lists is the sum of the counts |
| Annotate.SameInstantNotCounted | scripts/survivor_analysis/utils/annotate.py:43 | a ticket opened at exactly the comment's timestamp is not counted |
| Annotate.EarlierCounted | scripts/survivor_analysis/utils/annotate.py:43-45 | a ticket of the right type and author opened strictly earlier is counted |
| Annotate.CountOpenedBeforeMonotone | scripts/survivor_analysis/utils/annotate.py:43 | a later-or-equal timestamp never sees fewer earlier tickets |
| Annotate.HistoricalCountsMonotone | scripts/survivor_analysis/utils/annotate.py:42-57 | of two comments by one author, the later-or-equal one has a count at least as large |
| Annotate.CommentOrders | scripts/survivor_analysis/utils/annotate.py:60-62 | one rank per comment |
| Annotate.PrecedesIrreflexive | scripts/survivor_analysis/utils/annotate.py:60 | the sort order on comments is irreflexive |
| Annotate.PrecedesTransitive | scripts/survivor_analysis/utils/annotate.py:60 | the sort order on comments is transitive |
| Annotate.PrecedesTotal | scripts/survivor_analysis/utils/annotate.py:60 | any two different comments are ordered |
| Annotate.CommentOrderStrict | scripts/survivor_analysis/utils/annotate.py:60-62 | a comment sorted before another in its ticket gets a strictly smaller rank |
| Annotate.CommentOrderRespectsTime | scripts/survivor_analysis/utils/annotate.py:60-62 | a strictly earlier comment in the same ticket gets a smaller rank |
| Annotate.CommentOrderBound | scripts/survivor_analysis/utils/annotate.py:61-62 | each rank is below the number of comments of its ticket |
| Annotate.RanksCardinality | scripts/survivor_analysis/utils/annotate.py:61-62 | distinct comments of a ticket get distinct ranks |
| Annotate.CommentOrderIsPermutation | scripts/survivor_analysis/utils/annotate.py:60-62 | within a ticket with `k` comments the ranks are exactly 0 .. k-1 |
| SurvivalCurve.PullRequestAuthors | scripts/survivor_analysis/plot_survival_curve_pull_request.py:22 | at most one author per row |
| SurvivalCurve.PullRequestAuthorsMembers | scripts/survivor_analysis/plot_survival_curve_pull_request.py:22 | an author is listed iff some row of type "pull_request" has that author (both directions) |
| SurvivalCurve.PullRequestAuthorsLength | scripts/survivor_analysis/plot_survival_curve_pull_request.py:22 | one entry per pull request row |
| SurvivalCurve.PullRequestCountsFacts | scripts/survivor_analysis/plot_survival_curve_pull_request.py:24-26 | one count per distinct author; each is ≥ 1 and they add up to the number of pull requests |
| SurvivalCurve.CountAbove | scripts/survivor_analysis/plot_survival_curve_pull_request.py:29 | `(counts > i).sum()` is at most the number of authors |
| SurvivalCurve.CountAboveMonotone | scripts/survivor_analysis/plot_survival_curve_pull_request.py:29 | a higher `i` counts no more authors |
| SurvivalCurve.CountAboveAllIff | scripts/survivor_analysis/plot_survival_curve_pull_request.py:29 | every author is counted above `i` iff every author has more than `i` pull requests (both directions) |
| SurvivalCurve.CountAboveAllPositive | scripts/survivor_analysis/plot_survival_curve_pull_request.py:29 | with all counts ≥ 1, every author has more than 0 |
| SurvivalCurve.CountAboveMax | scripts/survivor_analysis/plot_survival_curve_pull_request.py:29 | nobody has more than the maximum |
| SurvivalCurve.MaxCount | scripts/survivor_analysis/plot_survival_curve_pull_request.py:31 | `max()` is one of the counts and bounds them all |
| SurvivalCurve.Curve | scripts/survivor_analysis/plot_survival_curve_pull_request.py:28-31 | the survival list has max + 1 entries |
| SurvivalCurve.ProjectCurve | scripts/survivor_analysis/plot_survival_curve_pull_request.py:22-31 | a log without pull requests is an error (max of an empty array); otherwise the curve of its counts |
| SurvivalCurve.PlotPositions | scripts/survivor_analysis/plot_survival_curve_pull_request.py:33 | `np.arange(len(survival_data)) + 1`: entry `i` is drawn at x = i + 1, so positions run from 1 to the list length |
| SurvivalCurve.CurveStartsAtOne | scripts/survivor_analysis/plot_survival_curve_pull_request.py:28-31 | entry 0 equals 1 |
| SurvivalCurve.CurveEndsAtZero | scripts/survivor_analysis/plot_survival_curve_pull_request.py:28-31 | the last entry equals 0 |
| SurvivalCurve.CurveNonIncreasing | scripts/survivor_analysis/plot_survival_curve_pull_request.py:28-31 | the list is non-increasing |
| SurvivalCurve.CurveInUnitInterval | scripts/survivor_analysis/plot_survival_curve_pull_request.py:28-31 | every entry lies in [0, 1] |
| SurvivalCurve.ProjectCurveFacts | scripts/survivor_analysis/plot_survival_curve_pull_request.py:22-31 | for a log with pull requests, the four curve properties above hold |
| SurvivalProportion.LabelAsWritten | scripts/survivor_analysis/plot_proportion_survival_at_n_pullrequest.py:24 | `split("/")[1]` succeeds iff the path has at least two components (IndexError otherwise) |
| SurvivalProportion.LabelAsWrittenIsConstant | scripts/survivor_analysis/plot_proportion_survival_at_n_pullrequest.py:18-24 | every globbed path gets the label "raw_data" |
| SurvivalProportion.ProjectLabel | scripts/survivor_analysis/plot_proportion_survival_at_n_pullrequest.py:24 | corrected label `split("/")[2]`: succeeds iff the path has at least three components |
| SurvivalProportion.ProjectLabelIsDirectory | scripts/survivor_analysis/plot_proportion_survival_at_n_pullrequest.py:18-24 | the corrected label of a globbed path is its project directory |
| SurvivalProportion.ProjectLabelsDistinguishProjects | scripts/survivor_analysis/plot_proportion_survival_at_n_pullrequest.py:18-24 | different directories get different corrected labels, and the same label as written |
| SurvivalProportion.SplitGlobPath | scripts/survivor_analysis/plot_proportion_survival_at_n_pullrequest.py:18 | every globbed path starts with the components "data", "raw_data" |
| SurvivalProportion.GlobPathComponents | scripts/survivor_analysis/plot_proportion_survival_at_n_pullrequest.py:18 | a globbed path has exactly the components data, raw_data, the directory, issues.tsv |
| SurvivalProportion.Proportion | scripts/survivor_analysis/plot_proportion_survival_at_n_pullrequest.py:32-34 | missing (0/0 is NaN) iff the project has no pull request authors |
| SurvivalProportion.ProportionInUnitInterval | scripts/survivor_analysis/plot_proportion_survival_at_n_pullrequest.py:32-34 | the proportion lies in [0, 1] |
| SurvivalProportion.ProportionAllAtLowThreshold | scripts/survivor_analysis/plot_proportion_survival_at_n_pullrequest.py:32-34 | with n ≤ 1 the proportion is 1 |
| SurvivalProportion.ProportionNonIncreasing | scripts/survivor_analysis/plot_proportion_survival_at_n_pullrequest.py:32-34 | raising n never raises the proportion |
| SurvivalProportion.ProportionCountsThresholdItself | scripts/survivor_analysis/plot_proportion_survival_at_n_pullrequest.py:33 | the test is "at least n": a lone author with exactly n pull requests counts at threshold n, and not at n + 1 |
| SurvivalProportion.ProportionAtDefault | scripts/survivor_analysis/plot_proportion_survival_at_n_pullrequest.py:11 | with the default n = 2, a project's bar is full iff every one of its authors opened at least two pull requests (both directions) |
| SurvivalProportion.CollectProportions | scripts/survivor_analysis/plot_proportion_survival_at_n_pullrequest.py:21-34 | the loop as written appends one label and one proportion per file, in step: every label is "raw_data" (component 1 of the globbed path), and proportion `i` is project `i`'s proportion |
| SurvivalProportion.CollectProjectProportions | scripts/survivor_analysis/plot_proportion_survival_at_n_pullrequest.py:21-34 | the same loop with the corrected label: label `i` is the project directory of file `i`, and proportion `i` is that project's proportion |
| SurvivalProportion.Percentages | scripts/survivor_analysis/plot_proportion_survival_at_n_pullrequest.py:36 | scaling keeps one value per project |
| SurvivalProportion.PercentagesInRange | scripts/survivor_analysis/plot_proportion_survival_at_n_pullrequest.py:36 | scaled values are percentages in [0, 100]; NaN stays NaN |
| SurvivalProportion.NaNLastIsTotalPreorder | scripts/survivor_analysis/plot_proportion_survival_at_n_pullrequest.py:38 | numpy's argsort order (NaN last) is a total preorder |
| SurvivalProportion.OrderBars | scripts/survivor_analysis/plot_proportion_survival_at_n_pullrequest.py:36-42 | values are shown in ascending order (NaN last); labels are permuted by the same index, so each label stays with its value |
| CoContributors.Binarise | scripts/visualizations/figure_supp_cocontributors.py:18 | an entry becomes 1 iff the count is > 0, and 0 iff it is ≤ 0 |
| CoContributors.CoContributorMatrix | scripts/visualizations/figure_supp_cocontributors.py:24-26 | `BᵀB` is a projects × projects matrix |
| CoContributors.ColumnDotOfBinarised | scripts/visualizations/figure_supp_cocontributors.py:24-26 | the dot product of two binarised columns counts the authors who contribute to both projects |
| CoContributors.SharedWithItself | scripts/visualizations/figure_supp_cocontributors.py:24-26 | the authors shared by a project with itself are its contributors |
| CoContributors.SharedSymmetric | scripts/visualizations/figure_supp_cocontributors.py:24-26 | sharing is symmetric |
| CoContributors.SharedAtMostContributors | scripts/visualizations/figure_supp_cocontributors.py:24-26 | the shared authors are at most the contributors of either project |
| CoContributors.CoContributorMatrixFacts | scripts/visualizations/figure_supp_cocontributors.py:24-26 | entry [p,q] is the number of authors of both; the matrix is symmetric, the diagonal is the number of contributors, and off-diagonal entries are ≤ both diagonal entries |
| CoContributors.Percentages | scripts/visualizations/figure_supp_cocontributors.py:27-28 | the percentage matrix is square of the same size |
| CoContributors.PercentBounds | scripts/visualizations/figure_supp_cocontributors.py:27-28 | 100·s/t lies in [0, 100] when s ≤ t |
| CoContributors.PercentagesAreShares | scripts/visualizations/figure_supp_cocontributors.py:27-28 | entry [p,q] after the transpose is 100 · shared(p,q) / contributors(p) and lies in [0, 100] |
| CoContributors.ZeroDiagonal | scripts/visualizations/figure_supp_cocontributors.py:31 | clears the diagonal in place; all off-diagonal entries are unchanged |
| CoContributors.CoContributorPercentages | scripts/visualizations/figure_supp_cocontributors.py:24-31 | the returned matrix has a zero diagonal, and off the diagonal holds 100 · shared / row project's contributors |
| CoContributors.CumSum | scripts/visualizations/figure_supp_cocontributors.py:35 | `cumsum(axis=1)` keeps the row length |
| CoContributors.StartsArePrecedingSums | scripts/visualizations/figure_supp_cocontributors.py:48-49 | `starts = cum - widths` is the sum of the preceding columns |
| CoContributors.CumSumEndsAtTotal | scripts/visualizations/figure_supp_cocontributors.py:35 | the last running total is the row total |
| CoContributionDistribution.ProjectsTouched | scripts/visualizations/figure_supp_distribution_cocontributions.py:18 | N is at most the number of projects |
| CoContributionDistribution.KeysBelowFacts | scripts/visualizations/figure_supp_distribution_cocontributions.py:23 | the groupby keys are exactly the values of N that occur, strictly ascending |
| CoContributionDistribution.EveryAuthorHasItsGroup | scripts/visualizations/figure_supp_distribution_cocontributions.py:20-23 | every author's N is a group key |
| CoContributionDistribution.CountIn | scripts/visualizations/figure_supp_distribution_cocontributions.py:20-23 | a group count is at most the number of authors considered |
| CoContributionDistribution.CountInAllGroups | scripts/visualizations/figure_supp_distribution_cocontributions.py:20-23 | counted over every possible N, a project's contributors are all counted |
| CoContributionDistribution.EmptyGroupCountsNothing | scripts/visualizations/figure_supp_distribution_cocontributions.py:23 | a value of N no author has contributes nothing |
| CoContributionDistribution.SumGroupsBelow | scripts/visualizations/figure_supp_distribution_cocontributions.py:23 | summing the rows of the groups below j counts the contributors with N < j |
| CoContributionDistribution.ColumnSumIsContributors | scripts/visualizations/figure_supp_distribution_cocontributions.py:20-23 | summing entry (N, p) over all groups gives the number of contributors to p |
| CoContributionDistribution.Normalised | scripts/visualizations/figure_supp_distribution_cocontributions.py:24 | one row per group and one column per project |
| CoContributionDistribution.ScaledSum | scripts/visualizations/figure_supp_distribution_cocontributions.py:24 | the scaled column sums to 100 · (column sum / total) |
| CoContributionDistribution.NormalisedColumn | scripts/visualizations/figure_supp_distribution_cocontributions.py:24 | each column is its group counts as percentages of its positive total |
| CoContributionDistribution.ColumnsSumToHundred | scripts/visualizations/figure_supp_distribution_cocontributions.py:24 | after normalisation every project column sums to 100 |
| CoContributionDistribution.OrderProjects | scripts/visualizations/figure_supp_distribution_cocontributions.py:25 | succeeds iff a group N = 1 exists (KeyError otherwise); the result is a permutation of the projects, ascending by their N = 1 share |
| CoContributionDistribution.Bars | scripts/visualizations/figure_supp_distribution_cocontributions.py:28-30 | one stacked bar per ordered project |
| CoContributionDistribution.BarsEndAtHundred | scripts/visualizations/figure_supp_distribution_cocontributions.py:29-30 | the running total of every project's bar ends at 100 |
| CoContributionDistribution.BarsNonEmpty | scripts/visualizations/figure_supp_distribution_cocontributions.py:23 | with at least one author there is at least one group |
| SummaryNumbers.ProjectName | scripts/exploratory_analysis/get_numbers_for_paper.py:27 | `split("/")[-2]` succeeds iff the path has at least two components |
| SummaryNumbers.ProjectNameOfPath | scripts/exploratory_analysis/get_numbers_for_paper.py:18-27 | the project of a globbed path is its directory |
| SummaryNumbers.ReadProjectName | scripts/exploratory_analysis/get_numbers_for_paper.py:27 | the name read from the path is the project directory |
| SummaryNumbers.PathLeqIsTotalPreorder | scripts/exploratory_analysis/get_numbers_for_paper.py:19 | the path order used by `sort()` is a total preorder |
| SummaryNumbers.SortByPath | scripts/exploratory_analysis/get_numbers_for_paper.py:19 | the files are a permutation of the glob result, ordered by path |
| SummaryNumbers.CountKind | scripts/exploratory_analysis/get_numbers_for_paper.py:39-40 | a per-type count is at most the number of tickets |
| SummaryNumbers.CollectRowStep | scripts/exploratory_analysis/get_numbers_for_paper.py:37-48 | reading file k appends exactly its row |
| SummaryNumbers.CollectAuthorsStep | scripts/exploratory_analysis/get_numbers_for_paper.py:43-47 | reading file k adds its authors to the union |
| SummaryNumbers.FirstAuthors | scripts/exploratory_analysis/get_numbers_for_paper.py:43-44 | after the first file read, the union is that file's authors |
| SummaryNumbers.AllAuthorsAppend | scripts/exploratory_analysis/get_numbers_for_paper.py:46-47 | the union over one more project adds that project's authors |
| SummaryNumbers.AllAuthorsContains | scripts/exploratory_analysis/get_numbers_for_paper.py:46-47 | every project's authors are in the union |
| SummaryNumbers.AllAuthorsAtMostSum | scripts/exploratory_analysis/get_numbers_for_paper.py:56 | the union is no larger than the sum of the per-project Authors values |
| SummaryNumbers.AllAuthorsBounds | scripts/exploratory_analysis/get_numbers_for_paper.py:43-56 | every per-project Authors value ≤ size of the union ≤ their sum |
| SummaryNumbers.CollectRows | scripts/exploratory_analysis/get_numbers_for_paper.py:25-48 | skips the first file; the rows are those of files 1.., in order; `all_authors` is None for fewer than two files, else the union of their authors |
| SummaryNumbers.RankRows | scripts/exploratory_analysis/get_numbers_for_paper.py:50 | the rows are permuted into Authors-descending order |
| SummaryNumbers.Summarise | scripts/exploratory_analysis/get_numbers_for_paper.py:18-58 | TypeError for fewer than two files. Otherwise: the project rows ranked by Authors; then the "all" row with the summed counts and the size of the author union |
| SummaryNumbers.TotalAuthorsBounds | scripts/exploratory_analysis/get_numbers_for_paper.py:50-56 | in the final table every project's Authors ≤ the "all" Authors ≤ the column sum |
| SummaryNumbers.OutputPath | scripts/exploratory_analysis/get_numbers_for_paper.py:63 | the table goes to "latex/summary_data.tex" whatever `--outname` says |
| SummaryNumbers.TableCells | scripts/exploratory_analysis/get_numbers_for_paper.py:62 | a row is written in the column order Issues, Pull requests, Comments, Authors, each cell being the row's value under that name |
| PValueTables.OverwritesAreOneShot | scripts/sentiment_analysis/export_supp_tables_pvalues.py:18-22 | after the four successive overwrites the mark is the one-shot classification |
| PValueTables.StrengthCountsThresholds | scripts/sentiment_analysis/export_supp_tables_pvalues.py:18-22 | the number of marks is the number of thresholds the p-value is strictly below |
| PValueTables.ThresholdsPassedMonotone | scripts/sentiment_analysis/export_supp_tables_pvalues.py:19-22 | a smaller p-value passes at least as many thresholds |
| PValueTables.StarsMonotone | scripts/sentiment_analysis/export_supp_tables_pvalues.py:18-22 | a smaller p-value never gets fewer marks |
| PValueTables.BoundariesGetTheWeakerMark | scripts/sentiment_analysis/export_supp_tables_pvalues.py:19-22 | at 0.1, 0.05, 0.01 and 0.001 the weaker mark applies; NaN gets "" |
| PValueTables.PValues | scripts/sentiment_analysis/export_supp_tables_pvalues.py:19 | KeyError without a `p_val_adjusted` column, TypeError if it holds text, else one optional p-value per row |
| PValueTables.Frame.constructor | scripts/sentiment_analysis/export_supp_tables_pvalues.py:13-14 | the table read from the file is a well-formed frame holding the given labels, column names and cells |
| PValueTables.ColumnIndex | scripts/sentiment_analysis/export_supp_tables_pvalues.py:19 | a column lookup finds the first column of that name, and fails iff there is none |
| PValueTables.ThresholdsPassed | scripts/sentiment_analysis/export_supp_tables_pvalues.py:19-22 | at most as many thresholds as were looked at are passed |
| PValueTables.Marks | scripts/sentiment_analysis/export_supp_tables_pvalues.py:18-22 | row i of the mark column is the one-shot mark of p-value i |
| PValueTables.WithColumnName | scripts/sentiment_analysis/export_supp_tables_pvalues.py:18 | `df["Sig."] = ...` keeps the existing names and adds the new one once |
| PValueTables.WithColumnCells | scripts/sentiment_analysis/export_supp_tables_pvalues.py:18 | the assigned column holds the values; every other cell is unchanged |
| PValueTables.AddSignificance | scripts/sentiment_analysis/export_supp_tables_pvalues.py:18-22 | fails exactly when the p-values cannot be read (KeyError or TypeError). The model then leaves the frame unchanged; the script has already added an empty `Sig.` column, but it stops there. Otherwise the frame gains the "Sig." column holding each row's one-shot mark, and nothing else changes |
| PValueTables.SetIndex | scripts/sentiment_analysis/export_supp_tables_pvalues.py:24-26 | ValueError unless the labels have three columns and one row per table row; otherwise the index becomes the labels |
| PValueTables.DropColumn | scripts/sentiment_analysis/export_supp_tables_pvalues.py:28 | KeyError iff the column is absent; otherwise that column leaves every row and nothing else changes |
| PValueTables.RenameColumns | scripts/sentiment_analysis/export_supp_tables_pvalues.py:30 | ValueError iff the name count differs; otherwise only the names change |
| PValueTables.MarkedThenDropped | scripts/sentiment_analysis/export_supp_tables_pvalues.py:18-28 | adding the mark column then dropping "model" leaves each row without its model cell, followed by its mark |
| PValueTables.ExportTable | scripts/sentiment_analysis/export_supp_tables_pvalues.py:18-30 | passes iff every step passes. The index then holds the labels, the columns are the four names, and the row count is unchanged. When the input has no "Sig." column of its own, each row is its input row without "model", followed by its mark |
| TimecoursePValues.ProjectOf | scripts/sentiment_analysis/export_supp_timecourse_pvalues.py:20 | IndexError iff the label has fewer than three ':'-fields |
| TimecoursePValues.YearOf | scripts/sentiment_analysis/export_supp_timecourse_pvalues.py:21 | IndexError without "year"; otherwise succeeds iff the part after the first "year", up to any second "year", cut at its first '-', reads as an integer |
| TimecoursePValues.ContrastName | scripts/sentiment_analysis/export_supp_timecourse_pvalues.py:27-40 | the eight contrasts translate through the table; any other is a KeyError |
| TimecoursePValues.RowKeys | scripts/sentiment_analysis/export_supp_timecourse_pvalues.py:19-40 | succeeds iff every label parses. Each key is then (project, contrast heading, year) of its label. A label with too few fields gives IndexError |
| TimecoursePValues.FieldsOfLabel | scripts/sentiment_analysis/export_supp_timecourse_pvalues.py:20-24 | for a label a:b:c…, the project is c's first field minus four characters and the contrast is "a:b" |
| TimecoursePValues.YearOfLabel | scripts/sentiment_analysis/export_supp_timecourse_pvalues.py:21 | a label …year<y>-… reads back year y |
| TimecoursePValues.KeyLeqIsTotalPreorder | scripts/sentiment_analysis/export_supp_timecourse_pvalues.py:42 | the (Project, Contrast, Year) order is a total preorder |
| TimecoursePValues.SortRows | scripts/sentiment_analysis/export_supp_timecourse_pvalues.py:42 | the rows are a permutation of the input, sorted by (Project, Contrast, Year), and rows with equal keys keep their input order (row `i` is input row `order[i]`, and equal keys have ascending `order`) |
| TimecoursePValues.KeyLabels | scripts/sentiment_analysis/export_supp_timecourse_pvalues.py:43-44 | each row's index becomes its project, contrast and year |
| TimecoursePValues.MarkedRows | scripts/sentiment_analysis/export_supp_timecourse_pvalues.py:47-51 | the mark column extends each sorted row by its mark |
| TimecoursePValues.OrderRows | scripts/sentiment_analysis/export_supp_timecourse_pvalues.py:19-45 | fails with the parse error, or returns the keyed rows as a permutation of the input rows, sorted by key, with rows of equal keys in their input order (a stable sort) |
| TimecoursePValues.ExportTimecourse | scripts/sentiment_analysis/export_supp_timecourse_pvalues.py:19-53 | a parse error is passed on. Otherwise the rows are sorted stably by key (equal keys keep their input order), the keys become the index, and the columns become the four names. When the input has no "Sig." column of its own, each row is its sorted row followed by its mark |
| GratitudeTimecourse.Matching | scripts/visualizations/figure_supp_gratitude_timecourse_by_projects.py:32-35 | a row is kept iff the project is a substring of its term |
| GratitudeTimecourse.TermLeqIsTotalPreorder | scripts/visualizations/figure_supp_gratitude_timecourse_by_projects.py:35 | the `sort_index` order is a total preorder |
| GratitudeTimecourse.ProjectRowsFacts | scripts/visualizations/figure_supp_gratitude_timecourse_by_projects.py:32-35 | the kept rows are exactly the matching rows, with multiplicity, sorted by term |
| GratitudeTimecourse.YearOf | scripts/visualizations/figure_supp_gratitude_timecourse_by_projects.py:36-37 | succeeds iff the text after the last ":year" parses as an integer; ValueError otherwise |
| GratitudeTimecourse.FieldsAreCut | scripts/visualizations/figure_supp_gratitude_timecourse_by_projects.py:38-43 | the category holds no ":author_group" and the membership no ":year" |
| GratitudeTimecourse.YearOfTerm | scripts/visualizations/figure_supp_gratitude_timecourse_by_projects.py:36-37 | the year of a term is the number after ":year" |
| GratitudeTimecourse.CategoryOfTerm | scripts/visualizations/figure_supp_gratitude_timecourse_by_projects.py:38-40 | the category is the text between ":type" and ":author_group" |
| GratitudeTimecourse.Terms | scripts/visualizations/figure_supp_gratitude_timecourse_by_projects.py:36-43 | the parsed index holds each row's term |
| GratitudeTimecourse.Categories | scripts/visualizations/figure_supp_gratitude_timecourse_by_projects.py:38-40 | entry i is the category parsed from row i's term |
| GratitudeTimecourse.MembershipOfTerm | scripts/visualizations/figure_supp_gratitude_timecourse_by_projects.py:41-43 | the membership is the text between ":author_group" and ":year" |
| GratitudeTimecourse.TermRoundTrip | scripts/visualizations/figure_supp_gratitude_timecourse_by_projects.py:36-43 | each field parsed from a term is the value it was built from |
| GratitudeTimecourse.MemberMask | scripts/visualizations/figure_supp_gratitude_timecourse_by_projects.py:51 | a row is in the left panel iff its membership is exactly "member" |
| GratitudeTimecourse.SeriesMask | scripts/visualizations/figure_supp_gratitude_timecourse_by_projects.py:54 | one mask entry per row |
| GratitudeTimecourse.Selected | scripts/visualizations/figure_supp_gratitude_timecourse_by_projects.py:55 | the number of rows a mask selects is at most the number of rows |
| GratitudeTimecourse.Complement | scripts/visualizations/figure_supp_gratitude_timecourse_by_projects.py:73 | the right panel's mask is the negation of the left one's |
| GratitudeTimecourse.PanelsPartitionRows | scripts/visualizations/figure_supp_gratitude_timecourse_by_projects.py:51-73 | every row is in exactly one panel, the left one iff its membership is "member" |
| GratitudeTimecourse.SeriesOfRow | scripts/visualizations/figure_supp_gratitude_timecourse_by_projects.py:53-54 | within a panel, a row is in the series of its own category and no other, and that category is among the unique ones |
| GratitudeTimecourse.ListedOnce | scripts/visualizations/figure_supp_gratitude_timecourse_by_projects.py:53 | `np.unique` lists each category once |
| GratitudeTimecourse.SeriesCover | scripts/visualizations/figure_supp_gratitude_timecourse_by_projects.py:53-55 | when the categories are listed once each and cover the rows, the series' row counts add up to the panel's row count: no row is drawn twice or left out |
| GratitudeTimecourse.SeriesCoverPanel | scripts/visualizations/figure_supp_gratitude_timecourse_by_projects.py:53-55 | the per-category series of a panel, over its unique categories, draw as many rows as the panel selects |
| GratitudeTimecourse.ComplementsAddUp | scripts/visualizations/figure_supp_gratitude_timecourse_by_projects.py:73 | a mask and its complement together select every row |
| GratitudeTimecourse.ProjectPanels | scripts/visualizations/figure_supp_gratitude_timecourse_by_projects.py:32-75 | succeeds iff every kept term has an integer year; the panels then have one entry per kept row |
| GratitudeTimecourse.PanelsDrawEveryRowOnce | scripts/visualizations/figure_supp_gratitude_timecourse_by_projects.py:51-76 | in each panel the per-category series draw as many rows as the panel selects, and the two panels' row counts add up to the number of kept rows |

## Left out

- Reading and writing files, argparse, glob, matplotlib rendering, colours, legends and `to_latex` are I/O or presentation. The data they read is an input of the model: log rows, label tables, model estimates, the contribution matrix.
- Floating point: ratios, shares, means and percentages are exact reals. IEEE rounding is not modelled. NaN is modelled only as a missing value (`None`).
- `compute_contributions_per_project` is not part of this model. The authors × projects count matrix it builds is an input.
- The open-duration histogram script reads an `open_duration` column that `annotate_comments_tickets` never creates, so it is not modelled.
- The unused `pivot_table` (export_supp_timecourse_pvalues.py lines 55-60) is not modelled, and neither is the unused `is_emotion` variable (line 14). The result of the pivot is never used and `to_latex` writes `pvalues` itself. The pivot still runs before the table is written, though, and an error it raised would stop the script; that is not modelled.
- The unused `mapping_names` dictionary of the gratitude figure is not modelled. Neither are the `colors[category]` and `labels[category]` lookups, which only style the plot.
- Tally.CountUnique: lists the distinct values in order of first appearance, whereas `np.unique` sorts them. Every caller uses only the counts, through operations that ignore their order; Tally.CountsPermutationInvariant and BusFactor.BusFactorDependsOnlyOnCounts are the lemmas that make this safe.
- GratitudeTimecourse.SeriesCoverPanel and GratitudeTimecourse.PanelsDrawEveryRowOnce: go through the categories in `Tally.Distinct` order (first appearance), whereas `np.unique(categories)` (figure_supp_gratitude_timecourse_by_projects.py lines 53 and 74) sorts them. Only the order in which the series are drawn and listed in the legend depends on this; the proved row counts are sums that ignore the order.
- Annotate.CommentOrders: breaks timestamp ties by row position. The pandas quicksort used by `sort_values` is not stable, so the source's tie order is unspecified. The rank lemmas are proved for this one tie order only. CommentOrderRespectsTime, CommentOrderBound and CommentOrderIsPermutation state facts that any time-consistent tie order would share, but that is not proved.
- SummaryNumbers.RankRows: promises an Authors-descending permutation but no particular order among rows with equal Authors, for the same reason.
- BusFactor.ComputeBusFactor: requires a non-empty commit table. On an empty one numpy's `max()` raises ValueError, and that error path is not modelled.
- BusFactor.ComputeBusFactor: requires `n_committers >= 1`. With 0, numpy returns NaN (the mean of an empty slice) with a warning. A negative `n_committers` makes `shares[:n]` drop the last |n| shares instead; the mean then runs over the rest, and is NaN once |n| is at least the number of authors. Neither case is modelled.
- CoContributors.CoContributorPercentages: requires every project to have a contributor. Otherwise numpy divides by zero and the row becomes NaN; that row is not modelled.
- CoContributionDistribution.OrderProjects: requires every project to have a contributor, for the same reason. Without that, the normalisation divides by zero.
- PValueTables.AddSignificance: on a failing p-value column, the model leaves the frame unchanged. The script has already added an empty "Sig." column at that point, but it stops, so the difference is never observed.
- Annotate.AnnotateCommentsTickets: author ids, ticket ids, and creation and update timestamps of comments and tickets are never missing (`authorId: int`, `ticketId: int`, timestamps as strings that are always present). In pandas a NaN `author_id` matches no ticket, so such a comment counts 0. A NaN `updated_at` compares unequal to everything, so `was_updated` is True. A NaN `ticket_id` is dropped by `groupby`, so that comment's `comment_order` is NaN. None of these cases is modelled.
- SurvivalCurve.PullRequestAuthors: author ids are never missing. `np.unique` would group all NaN ids together; that case is not modelled.
- Strings.ParseInt: accepts an optional sign followed by ASCII digits. Python's `int()` also accepts surrounding whitespace, underscores between digits and non-ASCII digits; those forms are not modelled.
- SummaryNumbers.CollectRows: requires project directory names without '/'. A glob `*` never matches '/', so every globbed path satisfies this. The comment log of a project (found through `filename.replace("issues.tsv", "comments.tsv")`) is modelled as part of the project's data, not as a second path.
- SurvivalProportion.CollectProjectProportions: requires directory names without '/', for the same reason.
- PValueTables.ExportTable: promises nothing about the frame after a failing step, because the script stops there.
- TimecoursePValues.ExportTimecourse: requires that the input has no "Project", "Contrast" or "Year" column of its own. The script would overwrite such a column; that case is not modelled.
- TimecoursePValues.YearOfLabel: proved for labels of the shape `<text without "year">year<digits>-<text without 'y'>`, the shape of the model output. The general case is covered by TimecoursePValues.YearOf's contract.
- GratitudeTimecourse.TermRoundTrip: proved for terms whose prefix, category and group contain no ':', as in the model output. The parsing functions themselves accept any term.

## Findings

| source | as written | input that shows it | evidently intended | confidence | as-written member | corrected member |
|---|---|---|---|---|---|---|
| scripts/survivor_analysis/plot_proportion_survival_at_n_pullrequest.py:24 | the bar label is `filename.split("/")[1]` | any path the glob on line 18 yields, e.g. `data/raw_data/numpy/issues.tsv`, gives "raw_data" | the project directory, `split("/")[2]` (the glob gained a `raw_data/` level; the survival-curve script's glob has none, and there `[1]` is the project) | high, not executed | SurvivalProportion.CollectProportions | SurvivalProportion.CollectProjectProportions |
