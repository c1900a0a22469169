# zignalyzer, modelled in Dafny

The repository holds two analysis scripts for a zebrafish fluorescence experiment.

`zebra_analysis.py` scans two directories of TIFF images, one per cell line (NOMO-1 and
MOLM-13). It gives each image the first treatment label of `["control", "LS", "RU", "VA",
"VC", "VR"]` that appears in the file name as a whole word, ignoring case. It sums the
image's pixels, concatenates the two cohort tables and groups the result by cell line.
Within each group, every label after `"control"` is t-tested against the `"control"` rows.

`zigler.py` reads a table of fish. It splits the rows into the `"VC"` control group and
the rest. For each distinct other sample, in order of first appearance, it runs Welch's
t-test against the controls. The result is NaN when either side has fewer than two values.

This project models the deterministic logic of both scripts and proves what it promises:

- the whole-word, case-insensitive filename test;
- first-match classification and record emission in sorted filename order;
- concatenation and grouping of the cohort tables;
- which comparisons are made, in what order, and with what fields;
- the control/treatment partition with its small-sample guard.

Modules:

- `WordMatch` (`word_match.dfy`): `re.search(rf"\b{label}\b", name, flags=re.IGNORECASE)` for a literal label.
- `SignalExtraction` (`signal_extraction.dfy`): `extract_signals`, written as a method with the source's nested loops and `break`. It is specified by the function `RecordsOf`.
- `CohortComparison` (`cohort_comparison.dfy`): the concatenation, the `groupby`, and the t-test loop as a method with nested loops. It is specified by the function `Plan`. `AnalyseCohorts` is the script's top level.
- `Zigler` (`zigler.dfy`): the partition (pure), and the result loop as a method.
- Helpers: `Collections` (row selection, columns, `unique`), `Strings` (Python's `str` order and `sorted`), `Stats` (NaN-or-number values and the uninterpreted t-test), `Wrappers`.

The t-test is a function parameter `TTest<V>`, applied to the two samples and the `equal_var` flag. The model says which samples each test is given, but nothing about what the test computes.

## Behaviour worth knowing

- Groups come in sorted cell-line order, because pandas `groupby` sorts its keys by default. So MOLM-13 is compared before NOMO-1 (`CohortComparison.CombinedCohortGroups`).
- `zebra_analysis.py` calls `ttest_ind` with the default `equal_var=True`. `zigler.py` passes `equal_var=False`.
- Files that match no label are dropped silently.
- `np.array(Image.open(path))` decodes the first frame of a multi-page TIFF. The signal is the sum of that array. The model's `pixels` is that decoded array, flattened.
- An empty combined table is an error. `pd.DataFrame([])` has no columns, so `groupby("cell_line")` raises. The model returns `Failure(MissingCellLineColumn)`.

## Model

| member | source | states |
|---|---|---|
| `WordMatch.SearchFrom` | zebra_analysis.py:16 | scanning start positions from `start` to the end finds a match exactly when `\b<label>\b` matches at some position at or after `start` |
| `WordMatch.Search` | zebra_analysis.py:16 | the search succeeds exactly when the label occurs somewhere in the name between two word boundaries, ignoring case |
| `WordMatch.MatchIsDelimitedOccurrence` | zebra_analysis.py:16 | for a label that starts and ends with a word character: a match is the label spelled out (ignoring case) with no letter, digit or underscore immediately before it and none immediately after it |
| `WordMatch.MatchIgnoresCase` | zebra_analysis.py:16 | folding the name and the label to lower case changes no match at any position |
| `WordMatch.OccursIgnoresCase` | zebra_analysis.py:16 | folding the name and the label to lower case changes no search result |
| `WordMatch.UnderscoreBlocksMatch` | zebra_analysis.py:16 | `x_VC_1.tif` does not match `VC`, and `control_1.tif` does not match `control` |
| `WordMatch.DelimitersAllowMatch` | zebra_analysis.py:16 | `x-VC.tif`, `VC.tif` and `nomo vc 3.tif` match `VC`; `Control 1.tif` matches `control` |
| `Strings.LessEqIsTotalOrder` | zebra_analysis.py:13 | the order `sorted` uses on file names (Python's `<=` on `str`) is reflexive, total, antisymmetric and transitive |
| `Strings.SortBySpec` | zebra_analysis.py:13 | `sorted` returns a permutation of the listing in non-decreasing name order (Python's code-point order on `str`) |
| `SignalExtraction.FirstMatch` | zebra_analysis.py:15-26 | the label chosen is the first in list order that occurs as a whole word; no earlier label occurs; none is chosen exactly when no label occurs |
| `SignalExtraction.RecordsOfMembers` | zebra_analysis.py:14-25 | a record is in the table exactly when it is `{file name, first matching label, pixel sum, cell line}` of some file that matches a label |
| `SignalExtraction.RecordsOfFields` | zebra_analysis.py:13-25 | no more records than files; every record's treatment is one of the labels given, its cell line is the one given, and its signal is the pixel sum of a file with that name |
| `SignalExtraction.RecordsOfAllClassified` | zebra_analysis.py:13-27 | when every file matches some label, the table has one record per file |
| `SignalExtraction.RecordsOfInNameOrder` | zebra_analysis.py:13-25 | a scan of files in name order yields records in file-name order |
| `SignalExtraction.RecordsOfOnePerFile` | zebra_analysis.py:13-26 | with distinct file names, no two records name the same file |
| `SignalExtraction.ScanStepMatched` | zebra_analysis.py:15-26 | when label `j` is the first label that matches a file's name, scanning that file appends exactly one record, which carries label `j` |
| `SignalExtraction.ScanStepUnmatched` | zebra_analysis.py:15-26 | when no label matches a file's name, scanning that file leaves the table unchanged |
| `SignalExtraction.SortKeepsNamesDistinct` | zebra_analysis.py:13 | sorting a listing whose file names are distinct gives a listing whose names are distinct |
| `SignalExtraction.ScanInSortedOrder` | zebra_analysis.py:13-27 | the table of a listing scanned in sorted order has no more records than files, exactly the records of the matching files, in file-name order; when the listing's names are distinct (as in one directory), no file has two records |
| `SignalExtraction.ExtractSignals` | zebra_analysis.py:11-27 | the nested loop with `break` returns exactly `RecordsOf` of the sorted listing: no more records than files, exactly the matching files' records, in file-name order, and, when the listing's names are distinct, no file with two records |
| `Collections.Filter` | zigler.py:14-15 | a boolean-mask selection keeps exactly the rows that satisfy the mask and never more rows than the table |
| `Collections.FilterPartition` | zigler.py:14-15 | a mask and its negation split a table: the sizes add up and the two selections together are the table as a multiset |
| `Collections.Distinct` | zigler.py:19 | `unique()` has no duplicates and holds exactly the values of the column |
| `Collections.DistinctInFirstAppearanceOrder` | zigler.py:19 | `unique()` lists values in order of first appearance |
| `CohortComparison.Combine` | zebra_analysis.py:42 | the combined table has the NOMO rows followed by the MOLM rows, each unchanged, and its length is the sum of theirs |
| `CohortComparison.GroupKeysSpec` | zebra_analysis.py:62 | there is one group per cell line present in the table, each exactly once, in sorted order |
| `CohortComparison.PlanOverLength` | zebra_analysis.py:62-110 | the loops append one row per (group, compared label) pair |
| `CohortComparison.PlanOverAt` | zebra_analysis.py:62-110 | row `g * width + j` compares group `g`'s control values with its values for compared label `j` |
| `CohortComparison.PlanShape` | zebra_analysis.py:62-110 | the table has one row per (group, compared label) pair, and the row of group `g` and label `j` compares that group's control values with its values for label `j` |
| `CohortComparison.PlanRows` | zebra_analysis.py:62-110 | exactly one row per group and label of `treatment_order[1:]`, in declared order; each row's test has the group's `"control"` values first; `significance` equals `p_value`; `"control"` is never compared when it is not among `treatment_order[1:]` |
| `CohortComparison.PlanRowFields` | zebra_analysis.py:96-110 | every appended row carries a group key, a compared label and `significance == p_value` |
| `CohortComparison.DeclaredOrderComparisons` | zebra_analysis.py:83 | with the declared vocabulary, LS, RU, VA, VC and VR are compared, in that order, and `"control"` is not |
| `CohortComparison.CombinedCohortGroups` | zebra_analysis.py:38-62 | grouping the concatenation of the two non-empty cohort tables gives MOLM-13 then NOMO-1, each group being exactly its cohort's table |
| `CohortComparison.GroupOfOneSide` | zebra_analysis.py:62 | when a cell line is present in only one of two concatenated tables, its group is that table, with its rows in order |
| `CohortComparison.PlanOfTwoGroups` | zebra_analysis.py:62-110 | a table with exactly two groups gets ten rows: the five compared labels of the first group, then the same five of the second |
| `CohortComparison.TwoCohortPlan` | zebra_analysis.py:42-110 | when both cohorts have records, the comparisons of the combined table are MOLM-13's five rows on MOLM-13's own records, then NOMO-1's five on NOMO-1's records |
| `CohortComparison.CompareCohorts` | zebra_analysis.py:57-110 | the nested loop over groups and `treatment_order[1:]` returns exactly `Plan` of the table; an empty table fails for lack of a `cell_line` column |
| `CohortComparison.AnalyseCohorts` | zebra_analysis.py:38-110 | extraction, concatenation and comparison compose; with both cohorts non-empty there are ten rows, five for MOLM-13 and then five for NOMO-1, each using its own cohort's records |
| `Zigler.Partition` | zigler.py:14-15 | every row lands in exactly one of the `"VC"` control group and the treatment rows, and together they make up the whole table |
| `Zigler.UniqueTreatmentsSpec` | zigler.py:19 | the loop visits each distinct non-`"VC"` sample exactly once, never `"VC"`, in order of first appearance among the treatment rows |
| `Zigler.RowsFollowUniqueTreatments` | zigler.py:19-32 | result rows that follow the distinct treatment samples one for one never name `"VC"` and never name a sample twice |
| `Zigler.CompareToControl` | zigler.py:18-32 | one result per distinct non-control sample, in order and without duplicates. Each result runs `ttest(control, treatment, equal_var=False)` on the same control data when both sides have more than one value, and is NaN/NaN otherwise |

## Left out

- Directory globbing and the hard-coded paths. A directory is the list of its `.tif` files, each a name and its pixel values, in any order.
- Image decoding with PIL and numpy. An image is the sequence of its pixel values as naturals. Float-valued images are not modelled.
- A matched file that PIL cannot decode. `Image.open` then raises and the whole scan stops. Every `ImageFile` here carries decoded pixels, so the model has no such failure.
- SignalExtraction.Sum: does not model numpy's 64-bit accumulator wrapping at 2^64. The sum is over unbounded naturals, because no real image comes near that bound.
- Regular-expression semantics beyond a literal label between two `\b`. A label containing metacharacters would be read as a pattern by `re`. The labels in use contain none.
- WordMatch.IsWordChar: Python's `\w` on `str` also counts non-ASCII letters and digits. The model counts ASCII letters, digits and `_` only.
- WordMatch.Fold: `re.IGNORECASE` on `str` also equates a few non-ASCII letters with ASCII ones, such as U+017F with `s`. The model folds ASCII letters only.
- The t-test numerics from `scipy.stats.ttest_ind`. The test is an uninterpreted parameter.
- The normalisation `area_max / li`. Each fish row carries the quotient as a given `Float` rather than computing it.
- Infinite values: `Stats.Float` holds NaN and finite reals only, so infinities are not represented, though `area_max / li` is infinite when `li` is 0, and `ttest_ind` can return an infinite statistic.
- Missing `sample` cells in the fish table. A sample is always a string here.
- CSV writing, HTML reading and the final `print` (I/O).
- All plotting: box and strip plots, the p-value bar geometry, the palette and figure saving. This includes `axes[i]`, which would fail for a third cell line. Only two cell lines reach it.
- The unused `treatment_counts_*` dictionaries.
- Pandas `groupby` internals. The model assumes sorted keys (pandas' default) with rows kept in table order within each group. It states this assumption rather than deriving it.
