# estxl table transformations, modelled in Dafny

estxl cleans the spreadsheet export of a registration form in three steps, and
this project models each of them over an in-memory table:

- **Child-row splitting** (`normalize_children`, module `AddChild`). A
  registration row can name up to two children. It becomes one output row per
  child. The child-1 row takes its base columns from the plain or "#1"
  columns. The child-2 row has each base column overwritten from the "#2"
  column. The "#1"/"#2" columns are then dropped, and a self-check raises if a
  second child is missing from the output.
- **Deduplication** (`dedupe_by_timestamp`, module `DeDup`). Rows are compared
  on every column except the time column and the ignored ones. They are
  sorted by the parsed timestamp, and one row per tuple of compared values
  survives. The function returns the surviving rows, the removed rows, and a
  per-signature report, where a signature is the "§"-joined compared values.
- **Similarity grouping** (`analyze_similarity`, module `Analysis`). Rows that
  share a normalised value in some column form a candidate group. Candidates
  with the same member set are merged, and they are numbered in the order
  they were found. For each candidate, the common columns are re-validated,
  the members' other values are listed and every pair of members is scored.
  The group is kept when some pair reaches the cutoff. The pair rows are
  emitted whether or not the group is kept.

A table is a list of column labels plus a list of rows. Each row maps labels
to cell values: missing, text, integer or timestamp (`Records`). Rows are
identified by their position.

In the source, `normalize_children` and `analyze_similarity` change their
working state step by step. The model mirrors them with methods whose loops
are proved equal to specification functions: `AddChild.NormalizeChildren` and
its loops, and `Analysis.AnalyzeSimilarity` and its loops. The properties are
lemmas about those functions. `dedupe_by_timestamp` is a chain of whole-table
pandas expressions, and is modelled as functions.

`_norm` is modelled as `Analysis.Norm`, and its behaviour is proved in
`Analysis.NormMeaning` and the two lemmas after it. The grouping functions,
methods and lemmas take the normaliser as a parameter `norm`. Every property
of the grouping therefore holds for `analyze_similarity` with `Norm` passed as
`norm`, and also for any other normaliser: none of the grouping proofs
depends on how `Norm` computes its result.

Only the exact spellings "Нет" and "нет" count as "no" in `_norm`; "НЕТ"
normalises to the text "нет" (`Analysis.NormNoIsCaseSensitive`). The
behaviour of `keep="last"` is the subject of the finding below.

## Model

| member | source | states |
|---|---|---|
| AddChild.HeaderNorm | src/estxl/add_child.py:15-19 | the normalised header has no "ё"/"Ё", no leading or trailing whitespace, and never two whitespace characters in a row (NFKC is a parameter) |
| AddChild.ReplaceYo | src/estxl/add_child.py:17 | each "ё" becomes "е", each "Ё" becomes "Е", and every other character stays where it was |
| AddChild.NonSpaceStrip | src/estxl/add_child.py:18 | `strip()` removes only whitespace: the non-whitespace characters are kept, in order |
| AddChild.CollapseKeepsText | src/estxl/add_child.py:18 | `re.sub(r"\s+", " ", s)` removes or replaces only whitespace: the non-whitespace characters are kept, in order |
| AddChild.CollapseClean | src/estxl/add_child.py:18 | a string with only single plain spaces is left unchanged by the substitution |
| AddChild.HeaderNormText | src/estxl/add_child.py:15-19 | the normalised header has the same non-whitespace characters, in order, as the NFKC form with "ё"/"Ё" replaced |
| AddChild.HeaderNormClean | src/estxl/add_child.py:15-19 | a header whose NFKC form has no "ё"/"Ё", only single plain spaces and no edge whitespace normalises to that form |
| AddChild.CollapseSpaces | src/estxl/add_child.py:18 | after `re.sub(r"\s+", " ", s)` no two whitespace characters are adjacent and the only whitespace is a plain space; it introduces no "ё"/"Ё" |
| AddChild.PairShape | src/estxl/add_child.py:21-22 | `_pair(base)` is exactly base + " #1" and base + " #2"; both differ from the base and from each other |
| AddChild.PairInjective | src/estxl/add_child.py:21-22 | different bases never share a "#1" or a "#2" label, and no "#1" label is a "#2" label |
| AddChild.NonEmptyMeaning | src/estxl/add_child.py:24-25 | `_nonempty` holds exactly when the cell is not missing and its string form has a non-whitespace character |
| AddChild.NonEmptyMask | src/estxl/add_child.py:24-25 | the mask has one entry per row, and entry i is `_nonempty` of row i's cell |
| AddChild.SourceFrame | src/estxl/add_child.py:37-38 | step 0 keeps the number of rows, its columns are the normalised headers plus `_src_row`, and row i has `_src_row` = i |
| AddChild.SourceCell | src/estxl/add_child.py:37 | every source cell reappears under its normalised label |
| AddChild.UnpairOneCases | src/estxl/add_child.py:42 | `rename_1` sends a base's "#1" label to the base and leaves every other label alone |
| AddChild.UnpairDistinct | src/estxl/add_child.py:42-43 | with distinct headers and no base next to its own "#1" column, `rename_1` never gives two columns the same label |
| AddChild.ViewLabels | src/estxl/add_child.py:41-43 | the child-1 view has a label exactly when it is a source label other than a renamed "#1", or a base whose "#1" column exists |
| AddChild.ViewCell | src/estxl/add_child.py:41-43 | every source cell reappears in the child-1 view under its renamed label |
| AddChild.OverwriteStep | src/estxl/add_child.py:48-52 | one pass of the loop keeps the row count; it appends the base as a new column only when the base was missing |
| AddChild.OverwriteStepCell | src/estxl/add_child.py:48-52 | after one pass the base holds the "#2" cell, else its old cell, else a missing value; every other cell is unchanged |
| AddChild.OverwriteBasesColumns | src/estxl/add_child.py:46-52 | the loop keeps the old columns in place and appends exactly the bases that were missing |
| AddChild.OverwriteBasesCells | src/estxl/add_child.py:46-52 | after the loop each base holds its "#2" cell, else its old cell, else a missing value; every non-base column is untouched |
| AddChild.OverwriteLoop | src/estxl/add_child.py:46-52 | the `for base in bases` loop computes the child-2 view `OverwriteBases` |
| AddChild.HasChild | src/estxl/add_child.py:56-65 | `has_child` gives one entry per row of the frame |
| AddChild.MaskOne | src/estxl/add_child.py:67-69 | the child-1 mask taken on the renamed view is the source frame's base-or-"#1" mask |
| AddChild.MaskTwo | src/estxl/add_child.py:68-70 | the child-2 mask taken on the overwritten view is the source frame's "#2" mask |
| AddChild.SplitLength | src/estxl/add_child.py:67-73 | the output has one row per first child plus one row per second child |
| AddChild.SrcOfFirst | src/estxl/add_child.py:67-73 | output row j, below the number of child-1 rows, carries the `_src_row` of the j-th first-child source row |
| AddChild.SrcOfSecond | src/estxl/add_child.py:67-73 | the output rows after the child-1 rows carry the `_src_row` of the second-child source rows, in source order |
| AddChild.ChildOneCell | src/estxl/add_child.py:41-73 | in a child-1 row every base holds the source's "#1" cell, else its base cell, else a missing value |
| AddChild.ChildTwoCell | src/estxl/add_child.py:46-73 | in a child-2 row every base holds the source's "#2" cell, else its base cell, else a missing value |
| AddChild.OtherCellFirst | src/estxl/add_child.py:73-76 | a column that is neither a base nor a "#1"/"#2" label passes to a child-1 row unchanged |
| AddChild.OtherCellSecond | src/estxl/add_child.py:73-76 | a column that is neither a base nor a "#1"/"#2" label passes to a child-2 row unchanged |
| AddChild.SplitColumns | src/estxl/add_child.py:73-76 | the output columns are the source columns plus the bases; without `keep_original`, no "#1"/"#2" label remains |
| AddChild.SplitHasShape | src/estxl/add_child.py:67-76 | the output is the child-1 rows in source order, then the child-2 rows in source order, each with its source row's `_src_row` and cells |
| AddChild.AtMostTwoPerSourceRow | src/estxl/add_child.py:67-73 | no three output rows share a `_src_row`: a source row gives at most two rows |
| AddChild.FailuresBeforeMeaning | src/estxl/add_child.py:100-116 | the self-check loop collects exactly the needed rows that no output row matches, in strictly ascending order |
| AddChild.SelfCheckFailuresMeaning | src/estxl/add_child.py:83-116 | the self-check reports exactly the source rows with a non-empty key "#2" that no output row with their `_src_row` matches |
| AddChild.FindSecondChild | src/estxl/add_child.py:104-116 | the lookup in `out_by_src` answers whether some output row with the `_src_row` matches every non-null "#2" value |
| AddChild.SelfCheck | src/estxl/add_child.py:85-116 | the self-check loop computes `SelfCheckFailures` |
| AddChild.SelfCheckHolds | src/estxl/add_child.py:81-117 | in every frame of the split shape, each source row with a second child passes, so the self-check reports nothing |
| AddChild.SplitPassesSelfCheck | src/estxl/add_child.py:83-122 | the frame built by steps 1-4 never fails its own self-check |
| AddChild.BuildOutput | src/estxl/add_child.py:40-76 | steps 1-4 compute the split frame `Split` |
| AddChild.NormalizeChildren | src/estxl/add_child.py:27-124 | returns the split frame, or the self-check's error exactly when `strict_check` is set and some row fails |
| AddChild.NormalizeChildrenSucceeds | src/estxl/add_child.py:118-122 | on the tables the model covers, `normalize_children` never raises |
| AddChild.DefaultConfigCovered | src/estxl/add_child.py:6-12 | the default bases and key base form a configuration the model covers |
| AddChild.SourceFrameCovered | src/estxl/add_child.py:37-38 | step 0 on a table with valid normalised headers yields a frame the model covers |
| DeDup.Dedupe | src/estxl/de_dup.py:16-17 | the body fails exactly when the time column is missing, with the KeyError naming that column |
| DeDup.DedupeByTimestamp | src/estxl/de_dup.py:16-30 | `dedupe_by_timestamp` as written (ascending only for keep="first", pandas keep="last" only for keep="last") fails exactly when the time column is missing |
| DeDup.Coerce | src/estxl/de_dup.py:19-20 | coercion keeps the columns and the number of rows |
| DeDup.CoerceRow | src/estxl/de_dup.py:19-20 | coercion rewrites each row's time cell to its parsed instant or NaT, and leaves every other cell alone |
| DeDup.CompareColumns | src/estxl/de_dup.py:22 | a column is compared exactly when it is neither the time column nor ignored; the compared columns keep the frame's column order |
| DeDup.SortOrderExists | src/estxl/de_dup.py:24-25 | every column of timestamps has a sort order, with NaT last in both directions |
| DeDup.ReorderSorted | src/estxl/de_dup.py:25 | rows reordered by a sort order list their timestamps in sort order |
| DeDup.ReorderPermutes | src/estxl/de_dup.py:25 | sorting keeps every row, as often as before |
| DeDup.KeptDistinct | src/estxl/de_dup.py:27 | `duplicated` leaves no two unmarked positions with the same key |
| DeDup.SurvivorExists | src/estxl/de_dup.py:27 | every key has an unmarked position: its last occurrence for keep="last", its first otherwise |
| DeDup.SurvivorIsExtreme | src/estxl/de_dup.py:27 | an unmarked position comes after (keep="last") or before (otherwise) every position with its key |
| DeDup.KeptRemovedPartition | src/estxl/de_dup.py:27-30 | every sorted row is either kept or removed, exactly once |
| DeDup.KeptDistinctKeys | src/estxl/de_dup.py:30 | no two kept rows agree on the comparison columns |
| DeDup.RemovedHaveSurvivor | src/estxl/de_dup.py:27-30 | every removed row agrees on the comparison columns with a kept row |
| DeDup.KeptSorted | src/estxl/de_dup.py:24-30 | the kept rows stay in sort order |
| DeDup.SurvivorTime | src/estxl/de_dup.py:24-30 | with keep="last" every group member's timestamp precedes the survivor's in the sort direction; otherwise the survivor's precedes every member's |
| DeDup.DedupeStages | src/estxl/de_dup.py:27-57 | without an input `_sig` column, the result is the kept rows with the input's columns, the removed rows and the report |
| DeDup.DedupePartition | src/estxl/de_dup.py:27-30 | `deduped` and `removed` together are the coerced input rows, each exactly once |
| DeDup.DedupeDistinct | src/estxl/de_dup.py:30 | no two deduplicated rows agree on the comparison columns |
| DeDup.DedupeRemovedCovered | src/estxl/de_dup.py:27-30 | every removed row agrees on the comparison columns with a deduplicated row |
| DeDup.DedupeSorted | src/estxl/de_dup.py:24-30 | the deduplicated rows are in sort order |
| DeDup.DedupeSurvivor | src/estxl/de_dup.py:24-30 | a survivor against any input row of its group: the input row precedes it (keep="last") or follows it (otherwise) in the sort direction |
| DeDup.KeepFirstEarliest | src/estxl/de_dup.py:24-30 | keep="first" keeps the earliest timestamp of the group, and NaT only when the whole group is NaT |
| DeDup.KeepLastKeepsEarliest | src/estxl/de_dup.py:24-30 | keep="last" as written keeps the earliest timestamp of the group, or a NaT row when the group has one |
| DeDup.KeepLastIntendedLatest | src/estxl/de_dup.py:24-30 | the corrected keep="last" keeps the latest timestamp of the group, and NaT only when the whole group is NaT |
| DeDup.DedupeIdempotent | src/estxl/de_dup.py:27-30 | deduplicating a result again removes nothing and keeps every row |
| DeDup.JoinInjective | src/estxl/de_dup.py:33 | two "§"-joins of equally many parts without "§" are equal only when the parts are |
| DeDup.SigIff | src/estxl/de_dup.py:33 | two rows free of "§" have the same signature exactly when their compared values render the same |
| DeDup.CountSome | src/estxl/de_dup.py:42 | `count` is at most the number of timestamps; it is 0 exactly when all are NaT, and full exactly when none is |
| DeDup.MinOf | src/estxl/de_dup.py:43 | `min` is NaT exactly when all are NaT; otherwise it is one of the timestamps and bounds every instant from below |
| DeDup.MaxOf | src/estxl/de_dup.py:44 | `max` is NaT exactly when all are NaT; otherwise it is one of the timestamps and bounds every instant from above |
| DeDup.ReportSignaturesDistinct | src/estxl/de_dup.py:36-49 | the report rows have pairwise different signatures |
| DeDup.KeptSignatureReported | src/estxl/de_dup.py:36-49 | every kept row's signature has a report row |
| DeDup.RemovedSignatureReported | src/estxl/de_dup.py:38-49 | every removed row's signature has a report row |
| DeDup.ReportCountMeaning | src/estxl/de_dup.py:38-50 | `removed_rows` is 0 exactly when no removed row with the signature has a timestamp, and exactly then are the minimum and maximum NaT |
| DeDup.ReportExtremesMeaning | src/estxl/de_dup.py:41-45 | the minimum and maximum are timestamps of removed rows with the signature, and they bound every such timestamp |
| DeDup.ReportRowOf | src/estxl/de_dup.py:38-52 | report row i describes the i-th kept signature: its kept timestamp, and the aggregates of the removed rows with that signature |
| DeDup.KeepLastCounterexample | src/estxl/de_dup.py:24-30 | for two equal submissions stamped day 1 and day 2, keep="last" as written keeps day 1, while the corrected version keeps day 2 |
| Analysis.LowerChar | src/estxl/analysis.py:12 | lower-casing preserves whether a character is whitespace |
| Analysis.NormMeaning | src/estxl/analysis.py:8-12 | `_norm` is None exactly for a missing value, a blank one, or an exact "Нет"/"нет"; otherwise it is the stripped, lower-cased text, which is non-empty and has no whitespace at either end |
| Analysis.NormNoStripped | src/estxl/analysis.py:10-11 | " нет " and "Нет" normalise to None: the "no" test is made on the stripped text |
| Analysis.NormNoIsCaseSensitive | src/estxl/analysis.py:11-12 | "НЕТ" is not a "no": it normalises to the text "нет" |
| Analysis.ComparisonColumns | src/estxl/analysis.py:25-26 | the comprehension loop computes `Compared`: a frame column is compared exactly when it is not ignored |
| Analysis.Assign | src/estxl/analysis.py:43 | `d[k] = v` replaces the value in place when k is a key, and appends it otherwise; other cells and unique keys are kept |
| Analysis.NormColumn | src/estxl/analysis.py:30 | `df[c].apply(_norm)` has one entry per row, the normalised cell |
| Analysis.FindBucket | src/estxl/analysis.py:35 | the lookup finds the bucket with the value, or reports that none has it |
| Analysis.BuildBuckets | src/estxl/analysis.py:31-35 | the bucket loop computes `BucketsOf` of the normalised column |
| Analysis.BucketsDistinct | src/estxl/analysis.py:31-35 | no two buckets share a value |
| Analysis.BucketsRows | src/estxl/analysis.py:31-35 | each bucket lists, in increasing order, exactly the rows whose normalised value is its value |
| Analysis.BucketsCover | src/estxl/analysis.py:31-35 | every row with a normalised value is in a bucket |
| Analysis.IncreasingSetEq | src/estxl/analysis.py:40-41 | two increasing row lists with the same set are equal, so `sorted(idxs)` of a bucket is the bucket |
| Analysis.FindCandidate | src/estxl/analysis.py:41 | the `setdefault` lookup finds the entry with the member set, or reports that none has it |
| Analysis.GroupCandidates | src/estxl/analysis.py:28-43 | phase A's nested loops compute `Candidates` |
| Analysis.MergeBuckets | src/estxl/analysis.py:37-43 | the loop over one column's buckets computes `MergeColumn` |
| Analysis.MergeOne | src/estxl/analysis.py:40-43 | one `setdefault` and `common[col] = rep` compute `MergeBucket` |
| Analysis.BucketOf | src/estxl/analysis.py:30-35 | the bucket of value v on column c holds exactly the rows whose normalised value there is v |
| Analysis.MergeBucketAdds | src/estxl/analysis.py:38-43 | after merging a bucket, `groups_map` has an entry with the bucket's member set and the column in its `common` |
| Analysis.MergeBucketKeeps | src/estxl/analysis.py:40-43 | merging a bucket never drops an entry's member set or a column from its `common` |
| Analysis.MergeColumnKeeps | src/estxl/analysis.py:37-43 | merging a column's buckets never drops an entry's member set or a column from its `common` |
| Analysis.MergeColumnAdds | src/estxl/analysis.py:37-43 | every bucket of the column with at least `min_group_size` rows has an entry with its member set and the column in its `common` |
| Analysis.CandidatesComplete | src/estxl/analysis.py:28-43 | every bucket of at least `min_group_size` rows on a compared column becomes an entry of `groups_map` with that member set and that column in `common` |
| Analysis.CandidateOfBucket | src/estxl/analysis.py:28-43 | that entry's `rows` is exactly the bucket, since `sorted(idxs)` of a bucket is the bucket |
| Analysis.MergeBucketOK | src/estxl/analysis.py:37-43 | merging one large-enough bucket keeps every `groups_map` entry valid and the member sets distinct |
| Analysis.CandidatesAreOK | src/estxl/analysis.py:29-43 | every candidate has at least `min_group_size` members in increasing order and a non-empty `common` over comparison columns; on each of them the members share one non-None normalised value that no other row has, stored as the first member's raw value; member sets are distinct |
| Analysis.AnyMissing | src/estxl/analysis.py:58-59 | the `any` loop answers whether some member's normalised value is None |
| Analysis.StaleKeysMembers | src/estxl/analysis.py:56-60 | `to_delete` holds exactly the common keys on which some member is missing |
| Analysis.RemoveKeyMembers | src/estxl/analysis.py:62 | `del d[k]` keeps exactly the cells whose key is not k |
| Analysis.RemoveKeysMembers | src/estxl/analysis.py:61-62 | deleting a list of keys keeps exactly the cells whose key is not listed |
| Analysis.Revalidate | src/estxl/analysis.py:55-62 | the two re-validation loops compute `Revalidated` |
| Analysis.RevalidatedMeaning | src/estxl/analysis.py:55-62 | re-validation keeps exactly the common cells on which no member is missing |
| Analysis.RevalidateNoop | src/estxl/analysis.py:55-65 | after phase A, re-validation removes nothing, so every candidate with a `common` reaches the scoring |
| Analysis.DiffColumns | src/estxl/analysis.py:69 | a column is a difference column exactly when it is compared and not common |
| Analysis.Entry | src/estxl/analysis.py:71-76 | an entry starts with `row` (the member's position), and no key occurs twice |
| Analysis.EntryCells | src/estxl/analysis.py:71-76 | after `row`, an entry holds only difference columns whose normalised value is present, each with its raw value |
| Analysis.EntryCovers | src/estxl/analysis.py:72-76 | every difference column whose normalised value is present is a key of the entry |
| Analysis.BuildDifferences | src/estxl/analysis.py:67-77 | the `diffs` loops compute `Differences`, one entry per member in member order |
| Analysis.PairsCount | src/estxl/analysis.py:81 | `combinations(rows, 2)` has n(n-1)/2 pairs |
| Analysis.PairsSound | src/estxl/analysis.py:81 | every pair is (rows[i], rows[j]) for some i < j |
| Analysis.PairsComplete | src/estxl/analysis.py:81 | every (rows[i], rows[j]) with i < j is a pair |
| Analysis.ScoreOf | src/estxl/analysis.py:82-91 | 0 <= matches <= denom <= the number of comparison columns |
| Analysis.ScorePair | src/estxl/analysis.py:82-91 | the counter loop computes `ScoreOf` |
| Analysis.ScoreSymmetric | src/estxl/analysis.py:84-91 | the score does not depend on the order of the pair |
| Analysis.ScoreDenomZero | src/estxl/analysis.py:84-92 | `denom` is 0 exactly when no column has both values present |
| Analysis.ScoreAllEqual | src/estxl/analysis.py:84-91 | two rows that agree on every column have matches = denom, that is 100% |
| Analysis.ScoreShared | src/estxl/analysis.py:84-91 | a column where both rows have the same present value gives at least one match |
| Analysis.Percent | src/estxl/analysis.py:93 | the percentage lies in [0, 100], and it is 100 exactly when matches = denom |
| Analysis.PercentReaches | src/estxl/analysis.py:103 | a percentage reaches the cutoff exactly when 100·matches >= cutoff·denom |
| Analysis.PairRowsAll | src/estxl/analysis.py:92-100 | when every pair has a column to compare, each pair gives one row, in pair order |
| Analysis.ScoreGroup | src/estxl/analysis.py:80-100 | the pair loop computes `PairRows` of the group's pairs |
| Analysis.ReachesIff | src/estxl/analysis.py:103 | the `any` over the pair scores holds exactly when one pair row reaches the cutoff |
| Analysis.ReachesLower | src/estxl/analysis.py:103 | a lower cutoff is reached whenever a higher one is |
| Analysis.AnyReaches | src/estxl/analysis.py:103 | the `any` loop computes `Reaches` |
| Analysis.MembersMatch | src/estxl/analysis.py:84-91 | two members of a phase A candidate match on its first common column |
| Analysis.PairOfMembers | src/estxl/analysis.py:81-91 | each pair of a candidate is two members in increasing order with at least one match |
| Analysis.CandidatePairRows | src/estxl/analysis.py:79-100 | a candidate gives n(n-1)/2 pair rows, each for two of its members with 1 <= matches <= denom |
| Analysis.CollectGroups | src/estxl/analysis.py:48-111 | the returned groups are those of the passes that kept one, in order, with strictly increasing ids |
| Analysis.CollectKept | src/estxl/analysis.py:102-111 | pass k keeps a group exactly when a returned group has id k+1 |
| Analysis.SimsIgnoreCutoff | src/estxl/analysis.py:95-104 | the pair rows do not depend on the cutoff, since they are appended before it is applied |
| Analysis.ProcessLower | src/estxl/analysis.py:102-111 | a pass that keeps its group under a cutoff keeps the same group under a lower one |
| Analysis.CutoffMonotone | src/estxl/analysis.py:102-104 | raising the cutoff never adds a returned group |
| Analysis.SurvivorStep | src/estxl/analysis.py:48-111 | for a candidate that survives re-validation, the pass emits its pair rows whatever the cutoff, and it returns the group, with `common` intact, exactly when the cutoff is off or some pair reaches it |
| Analysis.NoCutoffKeepsAll | src/estxl/analysis.py:102-111 | without a positive cutoff every surviving candidate is returned, numbered 1, 2, ... |
| Analysis.Compared | src/estxl/analysis.py:26 | a frame column is compared exactly when it is not ignored; the compared columns keep the frame's column order |
| Analysis.AnalyzeSimilarity | src/estxl/analysis.py:14-114 | the procedure computes `Analyze`: the returned groups and the rows of `sim_df` |
| Analysis.AnalyzeGroups | src/estxl/analysis.py:48-111 | every returned group is valid (the phase A facts, non-empty `common`, one difference entry per member), and the ids are strictly increasing between 1 and the number of candidates, with gaps where a candidate was skipped |
| Analysis.AnalyzeSims | src/estxl/analysis.py:79-100 | every row of `sim_df` is for two members, in increasing order, of the candidate its group id numbers, with 1 <= matches <= denom |
| Analysis.AnalyzePairCount | src/estxl/analysis.py:79-100 | every candidate contributes n(n-1)/2 pair rows |
| Analysis.AnalyzeReturns | src/estxl/analysis.py:102-111 | a candidate whose cutoff test passes is returned under its id with its `rows` and `common` |
| Analysis.AnalyzeFindsBucket | src/estxl/analysis.py:14-111 | every large-enough bucket on a compared column is a candidate with that column common, and it is returned under its id whenever its cutoff test passes |
| Analysis.AnalyzeCutoff | src/estxl/analysis.py:102-104 | candidate k is returned exactly when the cutoff is not positive or one of its pair scores reaches it |
| Analysis.AnalyzeNoCutoff | src/estxl/analysis.py:102-111 | with a cutoff <= 0 every candidate is returned, numbered 1, 2, ... without gaps |
| Analysis.AnalyzeCutoffMonotone | src/estxl/analysis.py:95-104 | raising the cutoff never adds a group, and `sim_df` is the same whatever the cutoff |

## Left out

- Unicode NFKC (add_child.py:16) is a function parameter `nfkc`, because normalisation tables are outside the model.
- `pd.to_datetime(..., errors="coerce")` (de_dup.py:20) is a function parameter `parse`; None stands for NaT.
- The tie order of `sort_values` is a parameter `order`, constrained to be a permutation that lists the timestamps in sort order; no claim depends on how ties fall.
- The report's aggregation names the literal column "Timestamp" (de_dup.py:42-44); the model aggregates over `time_col`, so the two agree only when `time_col` is "Timestamp".
- The `to_dict` shape of `removed_json`, and the empty `sim_df` built with fixed column names, are not modelled: the model returns the rows themselves.
- pandas index labels and dtypes are not modelled; rows are identified by position, and a missing value is a single `Null`.
- Analysis.Percent: the percentage is not rounded to two decimals (analysis.py:93), and the cutoff is compared with the exact ratio, so a score just below the cutoff that rounds up to it is not counted as reaching it.
- `str()` of a timestamp is rendered by `Show` as its integer instant, not in pandas' date format; signatures are compared as these renderings.
- Analysis.LowerChar covers only the Latin and Cyrillic capitals (and Ё); other characters that Python lower-cases are left alone.
- DeDup.CompareColumns: an empty list of comparison columns is modelled as every row having the same (empty) key; how pandas treats `duplicated(subset=[])` is not part of this model.
- The DeDup lemmas assume that the input has no "_sig" column of its own; such a column would be overwritten by line 34 and then dropped by line 57.
- AddChild: the model requires the normalised headers to be distinct and no base to appear next to its own "#1" column, because `rename` would otherwise create duplicate labels (add_child.py:42-43), which the table model does not have.
- AddChild.ValidConfig: the lemmas about the split assume that no base is called `_src_row` and that neither a base nor the key base equals some base's "#1"/"#2" label; the default bases and key base satisfy this (AddChild.DefaultConfigCovered), and the only caller, src/estxl/cli.py:65, uses the defaults.
- Analysis.EntryCells: the statement assumes that no comparison column is itself called "row"; `Assign` models the overwrite that would happen then.
- Analysis.RemoveKey removes every cell with the key; with unique keys this is the single cell `del` removes.
- The in-place column overwrites in `dedupe_by_timestamp` (de_dup.py:20, 34) are modelled as functions that return the new table, because the working copy is private to the call.
- src/estxl/cli.py (sheet picking, Excel reading and writing, printing) and src/utils (settings, environment and path lookup) are I/O and are not part of this model.

## Findings

| source | as written | input that shows it | evidently intended | confidence | as-written member | corrected member |
|---|---|---|---|---|---|---|
| src/estxl/de_dup.py:24-30 | keep="last" sorts descending and then keeps pandas' last row of each group, which is the earliest timestamp, or a NaT row when the group has one | two rows with the same content, stamped day 1 and day 2: the day 1 row survives | keep the latest timestamp, as the docstring says ("Keep earliest or latest") | not executed | DeDup.KeepLastKeepsEarliest, DeDup.KeepLastCounterexample | DeDup.DedupeIntended, DeDup.KeepLastIntendedLatest |
