# alignparse: CCS run summaries and alignment targets

A Dafny model of two parts of `alignparse`:

- **CCS summaries** (`alignparse/ccs.py`):
  - reading a `ccs` yield report, in either the `ccs` 4.x layout or the 3.x layout, into (status, number, fraction) rows;
  - pulling per-read lengths, accuracies and `np:i:<n>` pass counts out of a FASTQ file's records;
  - building a `Summary` per run, which checks that the report's successful ZMWs match the number of reads;
  - building `Summaries` from a table of runs, with its column, name and CPU checks;
  - the cross-run queries `has_stat`, `ccs_stats`, `has_zmw_stats` and `zmw_stats`. `zmw_stats` does these steps:
    - computes each status's maximum fraction over all runs;
    - folds rare failure categories into "Failed -- Other reason", per run;
    - can fold success categories into "Success -- CCS generated";
    - orders rows by run, then by one shared status order.
- **Targets** (`alignparse/targets.py`):
  - the `Feature` length check;
  - the `Target` constructor, which validates a sequence record's features one by one;
  - the `has_feature` and `get_feature` lookups.

Modules, one file each:

- `Wrappers`: `Option`, `Result`, `MapAll`, `Distinct` and `IndexIn`.
- `Text`: character classes, digits, `strip()`, `split('\n')` and decimals.
- `LineShape`: a token recogniser for the regular-expression line shapes, with its completeness proof.
- `CcsReport`: the two report layouts and `report_to_stats`.
- `CcsReads`: `get_ccs_stats`.
- `CcsSummary`: `Summary`, `Summaries`, `has_stat`, `ccs_stats` and `has_zmw_stats`.
- `Sorting`: sort by key and `unique`.
- `CcsZmw`: `zmw_stats`.
- `Targets`: `Feature`, `Target` and its construction.

How the source's code maps to Dafny:

- Loops that build lists become methods with loops, proved against a specification function:
  - `get_ccs_stats` is `CcsReads.GetCcsStats`;
  - `ccs_stats` is `CcsSummary.CcsStats`;
  - `Target.__init__` is `Targets.NewTarget`, which fills the `features` list and the `featuresDict` map of a `Target` object.
- The data-frame pipelines become functions: the report parsers, `has_stat`, `has_zmw_stats` and `zmw_stats`.

Where the prose description of `zmw_stats` and the code disagree, the model follows the code:

- A failure category is absorbed only when its maximum fraction over all runs is below `minfailfrac` (`alignparse/ccs.py:348-355`). The absorbing is then done in every run at once.
- Take a category with fractions 0.02, 0.005 and 0.003 in three runs and a threshold of 0.01. It is therefore kept in all three runs, not absorbed in the last two.
- `CcsZmw.AbsorptionRule` states the rule as the code has it.

## Model

| member | source | states |
|---|---|---|
| CcsReport.ReportToStats | alignparse/ccs.py:560-565 | the 4.x layout decides when it matches; otherwise the 3.x layout decides, with rows read from its ZMW block; the result is the "cannot match" error exactly when neither layout matches; a parsed report has at least one row |
| CcsReport.LayoutsExclusive | alignparse/ccs.py:577-584 | no line list has both layouts |
| CcsReport.V4Counts | alignparse/ccs.py:577-592 | an accepted 4.x text has the input line, the filtered line, a blank line and "Exclusive ZMW counts for (C):", and ends in an empty line; the counts are the `(B)` count with status "ZMWs generating CCS", then one count per count line |
| CcsReport.ParseV4 | alignparse/ccs.py:589-601 | one row per count, with the same status and number; each fraction is the row's number over the sum of all row numbers |
| CcsReport.SharedRows | alignparse/ccs.py:593-600 | rows keep the counts' statuses and numbers, and each fraction is the row's share of the rows' total |
| CcsReport.FractionedNumbers | alignparse/ccs.py:600 | attaching fractions leaves the total count unchanged |
| CcsReport.V4Rows | alignparse/ccs.py:589-599 | the first 4.x row is "ZMWs generating CCS" with the `(B)` count; then exactly one row per exclusive-count line, in file order, each the line's parsed count |
| CcsReport.SharesSumToOne | alignparse/ccs.py:600 | fractions that are shares of a positive total add up to 1 |
| CcsReport.V4FractionsSumToOne | alignparse/ccs.py:600 | the 4.x fractions add up to exactly 1 when the total count is positive |
| CcsReport.V4Complete | alignparse/ccs.py:577-592 | every line list of the 4.x layout is accepted, with the `(B)` count and the count lines in order |
| CcsReport.V4Sound | alignparse/ccs.py:577-588 | every accepted line list has the 4.x layout |
| CcsReport.V4Accepts | alignparse/ccs.py:577-588 | the 4.x recogniser accepts a line list if and only if it has the 4.x layout |
| CcsReport.CountOfLine | alignparse/ccs.py:583-591 | a count line is read exactly when it has the shape `[\w \-]+: \d+ \S+` |
| CcsReport.CountOfLineShape | alignparse/ccs.py:589-591 | a line read as a count is `label: digits tail`; the status is the label's `strip()`, the number is the digits' value |
| CcsReport.CountLineFields | alignparse/ccs.py:589-591 | the status is the trimmed text before the line's first ':'; the number is the first integer token after ':' |
| CcsReport.CountLineComplete | alignparse/ccs.py:583-591 | every `label: digits tail` line is read as the trimmed label and the digits' value |
| CcsReport.V3ZmwLines | alignparse/ccs.py:615-620 | an accepted 3.x text is "ZMW Yield", a non-empty run of non-empty lines, two empty lines, then the end of the text or a "Subread Yield" block; the result is that run of lines |
| CcsReport.V3Complete | alignparse/ccs.py:615-620 | every line list of the 3.x layout is accepted, with its ZMW block |
| CcsReport.V3Rows | alignparse/ccs.py:621-626 | the rows are the ZMW block's lines read one by one, or a malformed-row error exactly when some line is not a row |
| CcsReport.YieldRowShape | alignparse/ccs.py:621-625 | a line read as a row is `status,digits,decimal%`; the row is the status, the digits' value, and the decimal over 100 |
| CcsReport.YieldRowComplete | alignparse/ccs.py:621-625 | every `status,digits,decimal%` line is read as that row |
| CcsReport.PercentOfPoint | alignparse/ccs.py:621-624 | a percentage written `w.f`, with digit parts, is the number `w.f` over 100 |
| CcsReport.V3Lines | alignparse/ccs.py:606-628 | a 3.x line list parses to the rows of its ZMW block |
| CcsReport.V3Text | alignparse/ccs.py:615-626 | a 3.x report text parses to the rows of its ZMW block |
| CcsReport.V3IgnoresSubread | alignparse/ccs.py:615-621 | adding a "Subread Yield" block does not change the result |
| LineShape.Match | alignparse/ccs.py:577-584 | on success, there is one piece per token; the pieces concatenate to the line, and each fits its token |
| LineShape.MatchComplete | alignparse/ccs.py:577-584 | for well-separated tokens, every concatenation of fitting pieces is recognised with exactly those pieces |
| LineShape.MatchIffShaped | alignparse/ccs.py:577-584 | the recogniser accepts a line if and only if the line has the declared shape |
| Text.Trim | alignparse/ccs.py:589 | `strip()` returns a slice of the text with only whitespace around it, and it neither starts nor ends with whitespace |
| Text.SplitLines | alignparse/ccs.py:591 | `split('\n')` gives at least one line; no line holds '\n'; joining the lines with '\n' gives the text back |
| Text.SplitJoinLines | alignparse/ccs.py:591 | splitting lines joined by '\n' returns those lines |
| Text.DecimalOfDigits | alignparse/ccs.py:623-624 | a digit string read as a decimal is its integer value |
| Text.DecimalOfPoint | alignparse/ccs.py:623-624 | `whole.frac` is read from its whole part and its fractional digits |
| CcsReads.PassSearch | alignparse/ccs.py:694-712 | the value of the leftmost `tag:i:<digits>` token at or after a position, delimited by start or whitespace and by whitespace or end; none exactly when no such token exists |
| CcsReads.PassCount | alignparse/ccs.py:694-716 | a comment has a pass count if and only if it holds a delimited `np:i:<digits>` token; the count is the leftmost such token's value |
| CcsReads.PassCountExample | alignparse/ccs.py:656-669 | `np:i:18` gives 18 passes |
| CcsReads.PassCountNeedsDelimiter | alignparse/ccs.py:694-697 | `np:i:18x` has no pass count |
| CcsReads.GetCcsStats | alignparse/ccs.py:693-724 | the loop returns the lengths, accuracies and all-or-nothing pass counts that `CcsStatsOf` defines |
| CcsReads.StatsPerRead | alignparse/ccs.py:693-719 | there is one length (the sequence length) and one accuracy per read; with a tag, passes exist if and only if every read has a count, one per read; without a tag there are no passes |
| CcsSummary.NewSummary | alignparse/ccs.py:73-104 | it fails with `MissingFastq` on a missing FASTQ file, with `MissingReport` on a missing report file (the FASTQ file being present), and with `BadReport` carrying the parse error on a report that does not parse; with a report, it succeeds exactly when the "Success" counts add up to the read count; with no report (none or empty), there are no ZMW statistics and no check; the fields are the run's statistics |
| CcsSummary.NoSuccessCountsZero | alignparse/ccs.py:92-96 | rows none of whose statuses starts with "Success" count zero CCSs |
| CcsSummary.GeneratingIsNotSuccess | alignparse/ccs.py:92-96 | the 4.x row "ZMWs generating CCS" does not start with "Success" |
| CcsSummary.V4ReportRejected | alignparse/ccs.py:91-100 | a 4.x report with no "Success" status fails next to a FASTQ file that has reads |
| CcsSummary.FirstMissing | alignparse/ccs.py:143-145 | the first column the table lacks, or none exactly when all are present |
| CcsSummary.RunSummaries | alignparse/ccs.py:161-168 | the summaries, one per row in row order, exactly when every row's `Summary` succeeds; otherwise the error of the first row that fails |
| CcsSummary.FailsFirstShift | alignparse/ccs.py:161-168 | the first failing row of the tail is the first failing row of the whole list, one place further on |
| CcsSummary.SummariesOfRows | alignparse/ccs.py:163-168 | it succeeds exactly when every row's `Summary` succeeds, and then the summaries are valid, one per row in row order, each the row's `Summary`; otherwise its error is that of the first row that fails |
| CcsSummary.NewSummaries | alignparse/ccs.py:138-168 | the checks run in the source's order: repeated column names, a missing column, duplicate run names, then a CPU count below 1 after clamping (-1 means all CPUs); once the checks pass, it succeeds exactly when every row's `Summary` succeeds, and otherwise gives the first failing row's error; on success, one summary per row in row order, with unique names |
| CcsSummary.StatNamed | alignparse/ccs.py:278-281 | exactly "length", "passes" and "accuracy" are variables |
| CcsSummary.HasStat | alignparse/ccs.py:263-283 | an unknown variable is an error; otherwise true if and only if every run has the statistic |
| CcsSummary.HasStatCases | alignparse/ccs.py:263-283 | lengths and accuracies are always available; passes exactly when every run has them; any other name is an error |
| CcsSummary.StatTableConcat | alignparse/ccs.py:251-257 | the table of two run lists is the first list's table followed by the second's |
| CcsSummary.StatBlockRows | alignparse/ccs.py:253-255 | each row of a run's block names the run and holds, at the same position, the run's value |
| CcsSummary.CcsStats | alignparse/ccs.py:232-261 | the loop returns the run-by-run table; it fails exactly when `has_stat` is not true or there are no runs, and with no runs the error is that `pd.concat` has nothing to concatenate |
| CcsSummary.HasZmwStats | alignparse/ccs.py:412-423 | for valid summaries, true if and only if every run has a report |
| CcsZmw.MaxFraction | alignparse/ccs.py:348-351 | the largest fraction a status reaches in any row of any run; none exactly when no row has the status |
| CcsZmw.Annotate | alignparse/ccs.py:348-355 | each row keeps its values and gains its status's maximum fraction and whether its status contains "Failed" |
| CcsZmw.AbsorptionRule | alignparse/ccs.py:348-358 | a row is absorbed if and only if its status contains "Failed" and every row with that status, in every run, has a fraction below `minfailfrac` |
| CcsZmw.Kept | alignparse/ccs.py:370 | exactly the rows that are not absorbed |
| CcsZmw.Absorbed | alignparse/ccs.py:358 | exactly the absorbed rows |
| CcsZmw.OtherRowsSum | alignparse/ccs.py:358-367 | each "Failed -- Other reason" row belongs to a run with absorbed rows; it is marked failed, and its number and fraction sum that run's absorbed rows |
| CcsZmw.OtherRowsMaxFraction | alignparse/ccs.py:363-366 | every "Failed -- Other reason" row's maximum fraction is the largest fraction among all these rows |
| CcsZmw.OtherRowsOnePerRun | alignparse/ccs.py:358-362 | with distinct run names, a run with absorbed rows has exactly one "Failed -- Other reason" row, and any other name has none |
| CcsZmw.Grouped | alignparse/ccs.py:359-382 | each grouped row has the given status and belongs to a run with rows; it sums that run's numbers and fractions, and takes the largest maximum fraction and whether any row failed |
| CcsZmw.GroupedOnePerRun | alignparse/ccs.py:377-382 | with distinct run names, grouping gives each run with rows exactly one row, and any other name none |
| CcsZmw.MaxOfMax | alignparse/ccs.py:380 | the largest maximum fraction of a run's rows |
| CcsZmw.MaxRowFraction | alignparse/ccs.py:363-366 | the largest fraction among the "Failed -- Other reason" rows |
| CcsZmw.AnyFailed | alignparse/ccs.py:360-380 | true if and only if some row failed |
| CcsZmw.CollapsedRows | alignparse/ccs.py:358-387 | each output row is one of three kinds: an input row that was not absorbed (and, with `groupsuccess`, is not a success); a "Failed -- Other reason" row; or, with `groupsuccess`, a "Success -- CCS generated" row |
| CcsZmw.CollapsedKeeps | alignparse/ccs.py:358-387 | conversely, every row of those three kinds is an output row, so no row is lost |
| CcsZmw.SuccessGrouping | alignparse/ccs.py:375-387 | with `groupsuccess`, every success row after collapsing is a "Success -- CCS generated" row, which sums its run's success rows |
| CcsZmw.CollapsedSuccess | alignparse/ccs.py:375-387 | with `groupsuccess`, the success rows after collapsing are exactly the per-run grouped rows of the kept success rows |
| CcsZmw.SuccessOnePerRun | alignparse/ccs.py:375-387 | with `groupsuccess`, for valid summaries, a run with success rows has exactly one success row after collapsing, and any other name has none |
| CcsZmw.NamesDistinct | alignparse/ccs.py:147-148 | the run names of valid summaries are distinct |
| CcsZmw.ZmwStats | alignparse/ccs.py:341-346 | it fails exactly when some run has no ZMW statistics, with the "not available" error, or when there are no runs, with the error that `pd.concat` has nothing to concatenate |
| Sorting.InsertBy | alignparse/ccs.py:392-393 | inserting into a sorted sequence gives a sorted permutation with the element added |
| Sorting.SortBy | alignparse/ccs.py:392-405 | the result is a permutation of the input whose keys never decrease |
| Sorting.Unique | alignparse/ccs.py:395 | each element appears once; the result holds exactly the input's elements, ordered by first occurrence |
| CcsZmw.StatusSorted | alignparse/ccs.py:391-394 | the rows are permuted so that non-failed rows come first, then by decreasing maximum fraction |
| CcsZmw.StatusOrderRule | alignparse/ccs.py:391-396 | for each status placed before another, some row of the first is not after any row of the second: not failed where the other failed, and the larger maximum fraction when both or neither failed |
| CcsZmw.StatusOrderStrict | alignparse/ccs.py:391-396 | a status whose rows all sort strictly before every row of another status is placed before it in the shared status order |
| CcsZmw.Ordered | alignparse/ccs.py:397-405 | the rows are permuted and sorted by run position, then by status position |
| CcsZmw.RunPositions | alignparse/ccs.py:390-400 | with unique run names, each run's name sits at the run's own input position |
| CcsZmw.ZmwStatsKeepsRows | alignparse/ccs.py:344-408 | every kept input row, every "Failed -- Other reason" row and, with `groupsuccess`, every "Success -- CCS generated" row appears in the output table |
| CcsZmw.ZmwStatsOrder | alignparse/ccs.py:390-408 | the output goes run by run in input order and, within a run, in the shared status order; every row has a run's name and a status of that order |
| CcsZmw.KeptAbsorbedSum | alignparse/ccs.py:358-373 | the kept rows and the absorbed rows split each run's total |
| CcsZmw.MergedSums | alignparse/ccs.py:358-373 | folding rare failures keeps each run's total number and total fraction |
| CcsZmw.GroupedSums | alignparse/ccs.py:359-379 | grouping a run's rows into one row keeps that run's totals |
| CcsZmw.SuccessSplitSum | alignparse/ccs.py:377-385 | the success rows and the other rows split each run's total |
| CcsZmw.GroupSuccessSums | alignparse/ccs.py:375-387 | grouping successes keeps each run's totals |
| CcsZmw.EntrySumPermutation | alignparse/ccs.py:405 | reordering rows does not change a run's total |
| CcsZmw.ZmwStatsKeepRunTotals | alignparse/ccs.py:344-408 | in the output, each run's total number and total fraction equal the totals of that run's report |
| Targets.NewFeature | alignparse/targets.py:46-54 | succeeds if and only if `end - start` is the sequence length; on failure, the length error; on success, the given fields and `length == end - start` |
| Targets.Extract | alignparse/targets.py:119 | the extracted region is no longer than the target sequence |
| Targets.ExtractFits | alignparse/targets.py:119-124 | the extracted region is `end - start` long if and only if the location is in order and inside the sequence, or empty; inside the sequence, it is the sequence's slice |
| Targets.ParseFeatures | alignparse/targets.py:109-126 | on success, there is one feature per record feature, in order, named by its type |
| Targets.Target.constructor | alignparse/targets.py:98-108 | a target with the record's name and sequence, `length == len(seq)`, and no features yet |
| Targets.Target.HasFeature | alignparse/targets.py:132-146 | true if and only if some feature has the name |
| Targets.Target.GetFeature | alignparse/targets.py:148-165 | succeeds exactly when `has_feature` is true, with a feature of that name from the list; otherwise the no-such-feature error |
| Targets.NewTarget | alignparse/targets.py:95-130 | the loop builds a target exactly when the feature validation succeeds, and otherwise returns its error; the target has the record's name and sequence and the validated features, and its list and map agree |
| Targets.IndexedAppend | alignparse/targets.py:125-126 | appending a feature with a new name to the list and to the map keeps the two in agreement |
| Targets.ParseFailureSticks | alignparse/targets.py:109-118 | once a prefix of the features fails, the whole list fails with the same error |
| Targets.EarlyFailure | alignparse/targets.py:111-124 | a feature rejected in the loop makes the target fail with that feature's error |
| Targets.ParseOutcome | alignparse/targets.py:109-126 | validation succeeds exactly when no feature has a problem, and then each record feature becomes its feature; otherwise it reports the first feature that has a problem |
| Targets.NoProblemIff | alignparse/targets.py:111-124 | no feature has a problem if and only if the names are distinct and allowed, and every feature is on the + strand and fits the sequence |
| Targets.SeenIffNamed | alignparse/targets.py:111 | a feature's name is among the names accepted so far if and only if an earlier feature has it |
| Targets.FeatureNamesOf | alignparse/targets.py:126-128 | the accepted features' names are the record's feature types |
| Targets.TargetAcceptance | alignparse/targets.py:95-130 | construction succeeds if and only if four things hold: feature names are distinct; each is allowed (`allow_extra_features`, or in the required or optional set); every feature is on the + strand and fits; every required name is present; the features are then the record's, in order |

## Left out

- File I/O:
  - Opening and reading files, `os.path.isfile`, `pysam.FastxFile` and BioPython parsing are outside the model.
  - The runs' files are a map from path to content (FASTQ records, or report text). A path that is not a key is a file that does not exist.
- `qvals_to_accuracy`: the per-read accuracy is an input of each record. The routine that computes it from quality scores is not part of this model.
- The `pathos` process pool: a CPU count above 1 maps `Summary` over the rows in parallel. The model maps sequentially and keeps the row order, as the pool does. The machine's CPU count is the `cpuCount` parameter.
- CcsSummary.RunSummaries: the error it returns is the first failing row's, which is what the sequential path raises. With a CPU count above 1, `ProcessPool.map` re-raises a failure in completion order, which need not be the first row's.
- Plotting: `plot_ccs_stats`, `plot_zmw_stats` and `Target.image` are presentation code.
- The `Targets` class at `alignparse/targets.py:255-286` only raises "not yet implemented".
- Error message text is not modelled, including the `len(self.passes)` in the consistency message. Errors are datatype values that carry the fields they name.
- `Target.__init__`'s `hasattr` checks on `name` and `seq`: a `SeqRecord` datatype always has both.
- Feature extraction:
  - BioPython's `location.extract` is modelled for + strand features as Python slicing of the target sequence, clamped like a slice.
  - Locations are natural numbers; a negative start or end is not modelled.
  - Minus-strand features are rejected before extraction, as in the source.
- Regular expressions:
  - Statuses are read through a deterministic recogniser of line shapes, not a regex engine.
  - `\s` and `strip()` whitespace are the ASCII whitespace characters, with the separators 0x1C-0x1F. Whitespace beyond ASCII is not modelled.
  - A `\s+` that runs across a line break in the 4.x header is not accepted.
  - `\w` is ASCII letters, digits and `_`. Unicode classes are not modelled.
- `pandas.read_csv` on the 3.x block: a row must be `status,digits,decimal%`, and any other line of the block gives a malformed-row error. Quoting and extra columns are not modelled. pandas reads many such lines without raising, and the model rejects them instead of producing its values:
  - a percent without '%' loses its last character to the slice, so `1.5` becomes 0.01;
  - a missing field becomes NaN;
  - a decimal number makes the column float.
- CcsReport.Share: a zero total gives fraction 0.0 where pandas gives NaN, and `V4FractionsSumToOne` requires a positive total. This also changes `zmw_stats` downstream: a NaN fraction is never absorbed, since `NaN < minfailfrac` is false, while the model's 0.0 "Failed" row is absorbed whenever `minfailfrac` is positive.
- Floating point: report fractions, shares and percentages are exact `real` numbers, where the source computes them in float64 (`alignparse/ccs.py:600` and `alignparse/ccs.py:623-624`). So the exact sum of 1 in `V4FractionsSumToOne` and the `fraction < minfailfrac` comparisons hold for the model's exact values, not necessarily for rounded floats.
- Integers are unbounded. The source's `number` column is a numpy int64 and its passes array has `dtype='int'`; overflow of either is not modelled.
- The pass tag is matched as literal text. A tag holding regular-expression metacharacters is not modelled; `Summary` always uses `np`.
- CcsSummary.NewSummary: `Summary` and `Summaries` are immutable datatypes built by functions that return a `Result`, not objects whose fields `__init__` assigns one by one. They never change after construction.
- `ccs_stats` values are `real`. Lengths and passes are converted from integers, where the data frame keeps an integer column. The categorical `name` column becomes the run order of the rows.
- CcsZmw.Merged: the pandas outer `merge` of disjoint row sets is modelled as concatenation. Its column mechanics are not modelled. A report row whose status is literally "Failed -- Other reason" stays a row of its own beside the run's folded row. An outer merge would fuse the two only if all their columns agreed. The one-row-per-run lemmas count the folded rows, not such report rows.
- CcsZmw.StatusSorted: statuses with equal sort keys are ordered by a stable insertion sort. pandas leaves their order unspecified, so only the order between unequal keys is claimed.
- Rows are ordered by the run and status categories, as positions in the name list and in the status order. The categorical dtype itself is not modelled.
- CcsZmw.ZmwStatsKeepRunTotals: the numbers are summed as `real`.
