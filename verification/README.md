# Reconciliation core of the NetSuite/Salesforce data integrity dashboard

The dashboard `Ht.py` loads a NetSuite export and a Salesforce export and compares them. This project models, as pure Dafny functions over in-memory tables, the logic that the script runs inline between the two uploads and the charts:

- **Column profiler.** Each NetSuite column gets a uniqueness score. The columns are ranked by that score and cut into primary, secondary and tertiary tiers. Date and account columns are picked out by name.
- **Column mappers.** The Salesforce header is renamed onto the NetSuite one, either by position or through a per-column choice made in the sidebar. The choice may be "(Skip)", and the last choice of a name wins.
- **Account filter.** Rows are kept when their account is selected.
- **Field alignment.** The merge key is the first column of the profiler's primary tier, and the list of compared fields is built. Both tables are reindexed to that list, and missing columns are filled with missing values.
- **Outer join.** The two tables are joined on the key. The `_merge` indicator (`both`, `left_only`, `right_only`) gives the match and mismatch totals and the orphan lists.
- **Per-field statistics on the joined rows.** Two missing values count as a match. Every orphan row counts as a mismatch for every field. Shares are zero-guarded.
- **Positional per-field comparison.** Values are cast to text and compared row by row over the rows both columns have. The variant used by the per-field charts counts membership instead.
- **Single-table quality checks.** For each column: missing values, duplicates, negatives in numeric columns and empty strings, plus grand totals.

A table is a header and rows of cells. A cell is `Null` (a blank read from the spreadsheet, NaN to the library), `Na` (the `pd.NA` marker the alignment writes into columns it adds), `Str(s)` or `Num(n)`. A column has the storage type the library would give it: `int64` for integers alone, `float64` for integers and blanks, `object` as soon as it holds text or the marker. Casting a column to text depends on that type: a blank reads "nan", the marker "<NA>", and an integer of a `float64` column gains ".0".

Modules, one per file:

| module | file | what it holds |
|---|---|---|
| `Base` | `base.dfy` | options, results, counting, filtering, deduplication, zero-guarded percentages |
| `Cells` | `cells.dfy` | cells, column storage types and the text form of the cast |
| `Tables` | `tables.dfy` | tables and column lookup |
| `Profiler` | `profiler.dfy` | the profiler |
| `Mapping` | `mapping.dfy` | the two mappers |
| `Alignment` | `alignment.dfy` | account filter, field list, reindexing, alignment |
| `Join` | `join.dfy` | the outer join |
| `JoinedStats` | `joinedstats.dfy` | the overview statistics |
| `Positional` | `positional.dfy` | positional and membership comparisons |
| `Quality` | `quality.dfy` | the quality checks |
| `Pipeline` | `pipeline.dfy` | the steps composed into one run |

The positional comparison block appears four times in the source, with the same logic each time: lines 377-388, 494-508, 592-606 and 633-638. `Positional.ComparePositional` models all four. The rates it returns are those of lines 502-508 and 600-606.

## Model

| member | source | states |
|---|---|---|
| Profiler.UniquenessScore | Ht.py:60 | the score times the row count is the number of distinct non-missing values; it is 0 for a column without rows and always lies in [0, 1] |
| Profiler.Rank | Ht.py:61 | the ranking is a permutation of the scored columns in which a higher score comes first and equal scores keep header order (a stable descending sort) |
| Profiler.RankedScoresNonIncreasing | Ht.py:61 | along a ranking scores never increase, and equal scores appear in header order |
| Profiler.SplitTiers | Ht.py:63-65 | primary, secondary and tertiary concatenate back to the ranking; primary holds the first min(3, n) names and secondary at most the next 5; tertiary is non-empty only after 8 names |
| Profiler.ColumnsMentioning | Ht.py:66-67 | a column is listed exactly when it is in the header and its lower-cased name contains the token |
| Profiler.DateDetectionExample | Ht.py:66 | "Close Date" and "LAST_UPDATED" are date columns and "Amount" is not: the match ignores case and may occur anywhere in the name |
| Profiler.ProfileTable | Ht.py:60-67 | each header column appears in the ranking once, with its own name, position and score; scores do not increase along the ranking; the tiers cut the ranking; the date and account lists are the matching header columns |
| Mapping.PositionalRenameMap | Ht.py:125-126 | the rename dictionary's keys come from the first min(len(ns), len(sf)) Salesforce names; with unique Salesforce names it has exactly min(...) entries and sends the i-th Salesforce name to the i-th NetSuite name |
| Mapping.PositionalRename | Ht.py:124-128 | the renamed header keeps its length; column i takes the i-th NetSuite name below min(...) and keeps its own name from there on |
| Mapping.PositionalExample | Ht.py:125-127 | three NetSuite columns against two Salesforce ones rename both Salesforce columns and leave the third NetSuite name unused |
| Mapping.PositionalRenameCanRepeatNames | Ht.py:126-127 | a Salesforce column beyond the shared prefix can already carry a name the rename gives to another column, so the renamed header can repeat a name |
| Mapping.MappingUpToEntries | Ht.py:137-147 | after the loop has visited any number of columns, every non-skipped choice is a key, and each key holds the Salesforce column of the last choice of that name |
| Mapping.ManualMapping | Ht.py:133-147 | `column_mapping` has exactly the chosen names other than "(Skip)" as keys; a kept choice maps to its own Salesforce column; every value is a Salesforce column |
| Mapping.ManualMappingOwners | Ht.py:146-152 | with unique Salesforce names, a Salesforce column is the value of exactly the name whose choice was kept, so the dictionary can be inverted |
| Mapping.Invert | Ht.py:152 | the inverted dictionary's keys are the original values, and each maps back to its original key |
| Mapping.ManualRename | Ht.py:150-154 | a Salesforce column whose choice was kept takes the chosen NetSuite name; a skipped or overridden column keeps its own name |
| Mapping.ManualLastChoiceWins | Ht.py:137-153 | with choices "A", "A", "(Skip)", name "A" maps to the second column; the first column keeps its name and "(Skip)" renames nothing |
| Alignment.SelectRows | Ht.py:178 | the header is unchanged; a row is kept exactly when its account cell is one of the selected values; the kept count is the count of such rows |
| Alignment.SelectRowsConserves | Ht.py:178 | kept rows plus dropped rows make up all rows |
| Alignment.SelectRowsIdempotent | Ht.py:178 | applying the account filter twice gives the same table as applying it once |
| Alignment.AccountFilter | Ht.py:177-180 | with no selected accounts or no account column both tables are unchanged; an account column NetSuite lacks is an error; otherwise NetSuite rows are filtered, and Salesforce rows are filtered only if Salesforce has the column |
| Alignment.MergeKey | Ht.py:183 | there is a merge key exactly when the profiler ranked at least one column, and it is a primary column |
| Alignment.MergeKeyIsMostUnique | Ht.py:60-63 | the merge key of a profiled table is the column with the highest uniqueness score, and the leftmost one among columns with that score |
| Alignment.SelectedFields | Ht.py:185 | the selected fields hold every ticked field of the three tiers exactly once |
| Alignment.AllFieldsAsWritten | Ht.py:186-194 | `all_fields` as the code builds it: its names are the non-empty selected fields and the truthy key, date and account columns |
| Alignment.AllFieldsAsWrittenRepeats | Ht.py:186-193 | when the merge key and the date column are the same unticked column, `all_fields` lists it twice |
| Alignment.AllFields | Ht.py:186-194 | same names as above, each once when the selected fields are unique; the selected fields come first in their order; a truthy merge key is always included |
| Alignment.AllFieldsAgreeOnDifferentExtras | Ht.py:186-193 | when the key, date and account columns are different names, the code's list and the corrected list are equal |
| Alignment.Reindex | Ht.py:196-203 | the result has exactly the listed columns and the same number of rows; a present column keeps its cells and an absent one is all missing; it fails with duplicate labels exactly when the header repeats a name and padding does not already give the list |
| Alignment.PaddedDistinct | Ht.py:196-200 | adding the missing columns creates a repeated name only if the header already had one |
| Alignment.ReindexColumns | Ht.py:196-203 | with unique names, a listed column the table has comes back cell for cell, and a listed column it lacks comes back all missing |
| Alignment.ReindexRefusesRepeatedNames | Ht.py:202-203 | a header repeating a name, as a rename can leave it, cannot be reindexed |
| Alignment.Align | Ht.py:183-205 | on the corrected field list, both aligned tables have exactly the field list as header and keep their row counts; the list is unique and contains the key; without a truthy key there is no comparison; with a truthy key and unique headers the comparison always goes ahead |
| Join.Partners | Ht.py:208 | the pairs of one NetSuite row are exactly the Salesforce rows with its key; there are none exactly when no Salesforce row has that key |
| Join.JoinClassification | Ht.py:208 | a `both` row pairs a NetSuite row and a Salesforce row of equal key, and every such pair occurs; `left_only` rows are exactly the NetSuite rows whose key Salesforce lacks, and `right_only` rows the converse |
| Join.TotalsCoverJoin | Ht.py:217-218 | `total_match` plus `total_mismatch` is the number of merged rows |
| Join.NetSuiteOrphans | Ht.py:857 | the NetSuite orphans are exactly the `left_only` rows |
| Join.SalesforceOrphans | Ht.py:884 | the Salesforce orphans are exactly the `right_only` rows |
| Join.NetSuiteOrphanCount | Ht.py:857 | there is one NetSuite orphan per NetSuite row without a Salesforce partner |
| Join.SalesforceOrphanCount | Ht.py:884 | there is one Salesforce orphan per Salesforce row without a NetSuite partner |
| Join.MismatchIsOrphans | Ht.py:218 | `total_mismatch` is the number of NetSuite orphans plus the number of Salesforce orphans |
| Join.NetSuiteRowsConserved | Ht.py:208 | every NetSuite row is either paired or a `left_only` orphan |
| Join.SalesforceRowsConserved | Ht.py:208 | every Salesforce row is either paired or a `right_only` orphan |
| Join.DisjointKeysExample | Ht.py:208-218 | two tables with no common key give one orphan each, no match and two mismatches |
| JoinedStats.FieldOnJoined | Ht.py:247-261 | a field the merged table lacks counts 0 and 0; otherwise matches plus mismatches is the number of merged rows, matches are at most `total_match`, and mismatches include every orphan |
| JoinedStats.FieldMatchesAreAgreeingPairs | Ht.py:253-261 | a listed field's matches are exactly the `both` rows whose two cells are equal values or are both missing; its mismatches are the other `both` rows plus every `left_only` and `right_only` row |
| JoinedStats.MissingValuesMatchEachOther | Ht.py:257 | two blanks match and a blank against a number is a mismatch; in a NetSuite text column paired with an added column, the blank matches the marker and the text does not |
| JoinedStats.PairThenRows | Ht.py:253-261 | a `both` row in front of other merged rows adds its own verdict, match or mismatch, to theirs |
| JoinedStats.FieldCountsSplit | Ht.py:254-259 | on the `both` rows, agreeing and disagreeing rows add up to `total_match` |
| JoinedStats.KeyFieldAlwaysMatches | Ht.py:247-258 | for the key field the matches are exactly `total_match` and the mismatches exactly `total_mismatch` |
| JoinedStats.ExcelFields | Ht.py:237-242 | the field list has each name of the two original headers once, with the NetSuite header first and in order |
| JoinedStats.TotalsCountVerdicts | Ht.py:262-269 | summed matches and mismatches are the number of listed fields the merged table has, times the number of merged rows |
| JoinedStats.OverallDistribution | Ht.py:266-271 | the totals are the per-field matches and mismatches summed over the listed fields, and together one verdict per compared field and merged row; each share is its total's percentage of their sum, both are 0 when there is nothing to count, and otherwise they add up to 100 |
| JoinedStats.OrphansWeighOnEveryField | Ht.py:260-269 | summed matches are at most `total_match` per compared field, and summed mismatches at least `total_mismatch` per compared field |
| JoinedStats.OneMatchOneOrphanEach | Ht.py:208 | NetSuite keys 1 and 2 against Salesforce keys 1 and 3 give one `both` row, one `left_only` row and one `right_only` row |
| JoinedStats.OrphansCountAgainstEveryField | Ht.py:245-269 | on those merged rows, compared on two fields, each field has 1 match and 2 mismatches, so the totals are 2 matches and 4 mismatches: orphans are mismatches for every field |
| JoinedStats.SingleMatchedRow | Ht.py:253-261 | a merged table of one `both` row gives a field one match when its two cells agree and one mismatch otherwise |
| JoinedStats.PairThenOrphans | Ht.py:253-261 | a `both` row followed by orphans gives a field its verdict on the pair plus one mismatch per orphan |
| Positional.PositionalMatches | Ht.py:376-383 | the positional matches are at most min(len(ns), len(sf)), which is at most len(ns) |
| Positional.PositionalMatchesAreEqualTexts | Ht.py:376-381 | the positional matches are exactly the rows below min(len(ns), len(sf)) whose two texts, each cast with its own column's type, are equal |
| Positional.ComparePositional | Ht.py:494-508 | matches plus mismatches is the NetSuite row count; without a Salesforce column the result is 0 matches and a 100% mismatch rate; otherwise the rates are zero-guarded shares of the row count that add up to 100 when there are rows |
| Positional.ValueEqualityIsTextEquality | Ht.py:376-381 | between two columns of the same storage type, every row holding the same value on both sides is a positional match |
| Positional.FloatColumnMissesEqualValues | Ht.py:376-381 | a NetSuite column of 10 and a blank against a Salesforce column of 10 and 20 has no positional match, although one row holds equal values: 10 reads "10.0" on one side and "10" on the other |
| Positional.AddedColumnMatchesNothing | Ht.py:196-203 | a column the alignment added holds only the marker, and against a column holding neither the marker nor the string "<NA>" it matches on no row |
| Positional.CastMatchesDifferentValues | Ht.py:376-381 | the number 10 and the string "10" are a positional match though the values differ |
| Positional.MembershipMatches | Ht.py:451 | the membership count is at most the NetSuite row count, and 0 when Salesforce lacks the field |
| Positional.MembershipCountsMembers | Ht.py:451 | the membership count is exactly the number of NetSuite rows whose value occurs somewhere in the Salesforce column |
| Positional.MembershipSkipsAbsentValue | Ht.py:451-452 | a NetSuite row whose value the Salesforce column lacks leaves the count below the row count and makes at least one mismatch |
| Positional.MembershipMismatches | Ht.py:452 | membership matches plus mismatches is the NetSuite row count |
| Positional.MembershipCoversIdenticalPositions | Ht.py:451 | the membership count is at least the number of rows with the same value on both sides |
| Positional.MembershipIgnoresOrder | Ht.py:451 | a reordered Salesforce column gives full membership but can give no positional match |
| Positional.DrillDownTotals | Ht.py:370-393 | the drill-down totals add up to the number of listed fields NetSuite has, times its row count |
| Positional.DrillDownSingle | Ht.py:372-392 | a single listed field adds its own positional comparison (matches and mismatches) when NetSuite has it, and nothing otherwise |
| Positional.DrillDownAppend | Ht.py:371-393 | the drill-down totals of two runs of fields are the field-wise sums of their totals, as `total_matches_all += matches` accumulates them |
| Positional.DrillDownWithoutSalesforce | Ht.py:372-393 | when Salesforce has none of the listed fields, nothing matches and every row of every listed NetSuite field is a mismatch |
| Quality.Negatives | Ht.py:780 | negatives are 0 for a column that is not numeric, and never more than the negative numbers |
| Quality.CountsArePositions | Ht.py:778-781 | a column is numeric exactly when it holds only numbers and blanks, and then its negatives are exactly its negative numbers; its missing values are exactly the blank and marker positions, and its empties the positions holding "" |
| Quality.DuplicatesAreRepeats | Ht.py:779 | duplicates plus distinct values equals the row count |
| Quality.NoDuplicatesIffDistinct | Ht.py:779 | a column has no duplicates exactly when no value repeats |
| Quality.ExclusiveIssuesWithinColumn | Ht.py:778-781 | missing, negative and empty-text counts together never exceed the row count |
| Quality.CheckColumn | Ht.py:778-782 | a column's check keeps the two bounds above |
| Quality.QualityChecks | Ht.py:777-790 | there is one check per column; each grand total is its count summed over the columns; `total_issues` is the sum of the four totals; missing, negative and empty totals stay within the table's cells, and so do duplicates |
| Quality.TotalsCountCells | Ht.py:777-790 | the grand totals of missing values and of empty strings equal the numbers of such cells counted row by row over the table |
| Quality.MixedColumnHidesNegatives | Ht.py:780 | a negative number is not counted in a column that also holds text, and is counted in a column of numbers and missing values |
| Quality.IssuesCanExceedCells | Ht.py:790-792 | a column of three missing values has 5 issues in 3 cells, because missing values also count as duplicates |
| Pipeline.MapColumns | Ht.py:120-154 | the mapped Salesforce table keeps its rows and gets the header of the chosen method |
| Pipeline.ProfiledKey | Ht.py:60-63 | there is a merge key exactly when the NetSuite table has a column, and it is one of its columns |
| Pipeline.Reconcile | Ht.py:177-218 | on the corrected field list, the run fails only on an unknown account column, a repeated name or a missing key; the model goes ahead with the join whenever the profiled key is truthy, the headers are unique and the account column is known (the library's own refusals to merge are listed under Left out); it joins on the profiled NetSuite key; the totals cover every merged row, the mismatches are the orphans, and the key field matches on every paired row |
| Pipeline.ProfiledKeyIsMostUnique | Ht.py:60-63 | the key the run joins on is the NetSuite column with the highest uniqueness score, the leftmost among equal scores |
| Base.Percent | Ht.py:270-271 | the share is 0 for an empty whole; otherwise share times whole is part times 100; it lies in [0, 100] when the part does not exceed the whole |
| Base.PercentsComplement | Ht.py:270-271 | two parts of a non-empty whole have shares that add up to 100 |
| Cells.ColumnTypeOfCells | Ht.py:59 | a column is `object` exactly when it holds text or the marker, and otherwise `float64` exactly when it holds a blank |
| Cells.TextRespectsValues | Ht.py:376-377 | within one storage type, equal cells have equal text, and two numbers have equal text only when they are equal |
| Cells.TypeChangesText | Ht.py:376-377 | the number 10 reads "10" in an `int64` column and "10.0" in a `float64` one |
| Cells.NumberMatchesItsDigits | Ht.py:376-377 | after the cast, 10 in an `int64` column and the string "10" read the same though the values differ |
| Cells.MissingTexts | Ht.py:376-377 | after the cast, a blank reads the same as the string "nan", while the marker never reads like a blank |
| Cells.OnlyMarkerRendersAsMarker | Ht.py:376-377 | only the marker itself and the string "<NA>" read "<NA>" after the cast |

## Left out

- Streamlit widgets, charts, download buttons and the theme file written at lines 3-16 are UI and file output, so they are left out. The model takes the options picked in the sidebar as parameters.
- Excel parsing (lines 59, 103-104, 239-241) is file input. The model starts from loaded tables whose headers hold no repeated name, because the spreadsheet loader renames repeated headers.
- Date coercion, the date-range filter and the trend charts (lines 81-88, 160-176, 697-745) depend on datetime parsing and are left out. Cells carry no dates.
- The `ValueError` fallback that concatenates the tables and tags every row "concat" (lines 209-212) is a degraded path and is not modelled.
- `total_nulls` of the merged table (line 219) is left out. It depends on the library's column layout after the merge.
- Join.JoinClassification: states membership only. The number of `both` rows produced by repeated keys, the order in which the library emits rows, and how it pairs missing keys are not claimed. The join compares keys by plain value equality.
- Alignment.SelectedFields: `list(set(...))` has no defined order. The model fixes first-occurrence order, and no stated property depends on that order.
- Profiler.ColumnsMentioning: lower-casing is modelled for ASCII letters only, not Python's full Unicode `str.lower`.
- Cells.Text: the cast covers blanks ("nan"), the marker ("<NA>"), integers and strings. Non-integer floats, dates and "NaT" are not modelled, and an integer of 10^16 or more in a `float64` column is written in exponent form by Python but as digits plus ".0" here.
- Cells.ColumnType: the storage type is derived from the cells being compared. The library keeps the type a column had when it was loaded, so after the account filter has dropped every blank row a column is still `float64` there, while the model gives it `int64`.
- Base.PercentsComplement: shares are exact real numbers. Python computes them in floating point, where for example 1/3*100 + 2/3*100 is 99.99999999999999. The same holds for Base.Percent, Positional.ComparePositional and JoinedStats.OverallDistribution.
- Alignment.Align: runs on the corrected field list (`Alignment.AllFields`). On the input of the finding below, the code's list repeats the key; the library then refuses the merge with a `ValueError`, and the code takes the concat path of lines 209-212. The model goes ahead with the join there instead.
- Pipeline.Reconcile: inherits the corrected field list from Alignment.Align, so on the input of the finding below it joins where the code falls back to concatenation.
- Pipeline.Reconcile: the library also refuses the merge at line 208 with a `ValueError` when the key is a number column on one side and a text column on the other, for example NetSuite ids 1 and 2 against Salesforce ids "1" and "2", or a numeric NetSuite key against a key column the alignment added with the marker. The code then takes the concat path of lines 209-212, where every total and per-field count is 0. Column types do not take part in the model's join, which reports the unpaired rows as orphans there instead.
- JoinedStats.FieldOnJoined: counts every pair of cells at line 257, including a number or blank of a numeric NetSuite column against the marker of a column the alignment added. Depending on the library versions, that comparison can raise a `TypeError` and stop the overview instead of counting a verdict.
- Alignment.AccountFilter: if the Salesforce header repeats the account column's name, the model filters on the first such column.
- Mapping.PositionalRename: the per-position statements assume unique Salesforce names, which the loader guarantees. For other headers only the length is stated.
- JoinedStats.FieldOnJoined: a field whose own name ends in `_x` or `_y` and collides with a suffixed merge column is not modelled.
- The null and duplicate rates of the drill-down (lines 489-490, 510-511) and the field lists of the per-field charts and the trend bar chart are left out. They reuse the counts modelled in `Quality` and `Positional`.
- The top-10 account ranking (lines 750-753) is chart-only. The orphan display columns (lines 862-869) are display-only.
- `clean_records` (line 792) is not modelled as a count. `Quality.IssuesCanExceedCells` shows that it can go negative.
- The quality score, grade letters, insight messages, run history, e-mail and PDF export do not appear in `Ht.py`.

Two behaviours of the code are easy to misread:

- **Orphans.** Every `left_only` and `right_only` row counts as a mismatch of every field (lines 260-261). One matched record with one orphan on each side therefore gives 2 matches out of 6 verdicts (`JoinedStats.OrphansCountAgainstEveryField`).
- **Key comparison.** The merge at line 208 joins on raw values, with no trimming or case folding. Only the positional comparison casts values to text.

## Findings

| source | as written | input that shows it | evidently intended | confidence | as-written member | corrected member |
|---|---|---|---|---|---|---|
| Ht.py:186-193 | the merge key, date column and account column are each appended to `all_fields` when they are not among the selected fields, but they are never checked against `extra_cols` | selected fields `["amount"]`, with merge key and date column both `"close_date"`, give `all_fields == ["amount", "close_date", "close_date"]` | each column listed once. With the key column repeated, the merge on that key is refused by the library with a `ValueError`, and the handler then falls back to the "concat" path, so no record is ever matched | medium, not executed | Alignment.AllFieldsAsWrittenRepeats | Alignment.AllFields |
