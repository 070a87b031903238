# Publishing Profiler, record-cleaning core

Publishing Profiler is a Streamlit page. It loads a Web of Science export and shows how
much a campus publishes, and with which publishers. Behind the widgets sits a short
pipeline of whole-table steps over the export's rows. This project models that pipeline
in Dafny and proves what each step guarantees:

1. **DOI normalisation** (`Doi`): the DI column is lower-cased in place.
2. **Document-type partition** (`DocumentTypes`):
   - The two exact book-review types are split off first.
   - Of the other rows, those whose DT contains "Article" or "Review", ignoring case, are kept.
   - The rest, followed by the book reviews, form the removed table.
3. **Title de-duplication** (`Dedup`): the first row of every title is kept. All rows without a title count as one title.
4. **Corresponding-author flag and sidebar selection** (`CorrespondingAuthor`):
   - `ISU_CA` is set when the reprint address contains, ignoring case, one of "Iowa State Univ", "Ames Lab", "Ames, IA" or "USDA".
   - The sidebar's "Yes" selects the flagged rows and "No" selects all rows.
   - The selection is a Boolean mask built before the publisher merge and applied after it, aligned by row number.
5. **Publisher merge** (`PublisherJoin`): a right merge with the publisher lookup table on the publisher code PU adds `PU_cleaned`.
6. **Pie counts** (`PieCounts`):
   - `value_counts` of the selected rows' `PU_cleaned`: missing names are dropped and the largest count comes first.
   - Then every entry whose count is below 3 is renamed "Other", in place.
7. **The driver** (`Profiler`):
   - `RunProfiler` runs the steps in order on an array and reassigned table variables, as the script does.
   - It is proved equal to the specification function `Pipeline`.
   - Lemmas about `Pipeline` cover the numbers and tables the page shows.

Supporting modules:
- `Wrappers`: `Option` and `Result`.
- `Text`: ASCII upper- and lower-casing, and substring search. `str.contains(p, case=False, regex=False)` is the upper-cased pattern searched in the upper-cased text.
- `Seqs`: order-preserving row selection (`df.loc[mask]`, `df.loc[~mask]`) and subsequences.
- `Records`: the row types. `None` is a missing cell (NaN).

The export and the lookup table are parameters, as is the radio-button answer.

## Model

| member | source | states |
|---|---|---|
| Text.ContainsIffOccurs | publishing_profiler.py:89 | the substring scan finds a pattern exactly when it occurs at some position of the text |
| Text.ContainsImpliesContainsIgnoreCase | publishing_profiler.py:89 | a case-sensitive occurrence is also found by the case-insensitive test |
| Text.UpperOfLower | publishing_profiler.py:47 | lower-casing first does not change the upper-cased text, so the case-insensitive tests cannot tell a lower-cased value from the original |
| Seqs.FilterMembers | publishing_profiler.py:95 | a selection (and its negation) holds exactly the table's rows that satisfy the mask (do not), and is never longer than the table |
| Seqs.FilterSplit | publishing_profiler.py:75-76 | a mask and its negation split the table: the two selections together hold every row exactly as often as the table |
| Seqs.FilterIsSubsequence | publishing_profiler.py:75-76 | both selections keep the table's row order |
| Doi.LowerDoiColumn | publishing_profiler.py:47 | rewriting the DI column in place leaves the array equal to the table with every DOI lower-cased |
| Doi.LowerDoisSpec | publishing_profiler.py:47 | afterwards no DOI contains an upper-case letter, each DOI equals the old one ignoring case, missing DOIs stay missing, and the row count and the other columns are unchanged |
| Doi.LowerDoisIdempotent | publishing_profiler.py:47 | lower-casing the column a second time changes nothing |
| DocumentTypes.IsArticleOrReviewUpper | publishing_profiler.py:95 | the keep test holds exactly when DT is present and its upper-cased text contains "ARTICLE" or "REVIEW" |
| DocumentTypes.SplitIsPartition | publishing_profiler.py:75-95 | the kept and removed tables share no row, and together they hold every input row exactly as often as the input (a permutation) |
| DocumentTypes.SplitDisjoint | publishing_profiler.py:89-95 | no row is both kept and removed |
| DocumentTypes.SplitMembership | publishing_profiler.py:75-95 | a row is kept iff it is not a book review and its DT names an article or review; it is removed iff it is a book review, or its DT is missing or names neither |
| DocumentTypes.BookReviewsAreRemoved | publishing_profiler.py:75-76 | a DT of exactly "Book Review" or "Book Review; Early Access" is removed and never kept, although it contains "Review" |
| DocumentTypes.OtherBookReviewTagsAreKept | publishing_profiler.py:75-76 | "Book Review" followed by any other tags is not caught by the exact test and is kept |
| DocumentTypes.RemovedOrder | publishing_profiler.py:89-92 | the removed table lists the rows that are neither article nor review first and the book reviews after them, each part in input order |
| DocumentTypes.KeptRowsAreArticlesOrReviews | publishing_profiler.py:95 | every kept row has a DT whose upper-cased text contains "ARTICLE" or "REVIEW" and is not a book review |
| DocumentTypes.KeptIsSubsequence | publishing_profiler.py:95 | the kept table keeps input order |
| Dedup.DropDuplicateTitlesIsFirstOccurrences | publishing_profiler.py:97 | the left-to-right scan equals the reference definition that keeps exactly the first row of every title |
| Dedup.FirstOccurrencesTitles | publishing_profiler.py:97 | the first occurrences have distinct titles and exactly the input's set of titles |
| Dedup.FirstOccurrencesAreFirst | publishing_profiler.py:97 | each survivor is the first row of the input with its title |
| Dedup.FirstOccurrencesKeepFirsts | publishing_profiler.py:97 | every row that is the first of its title survives |
| Dedup.DropSeenTitlesIsSubsequence | publishing_profiler.py:97 | de-duplication only deletes rows, so the survivors keep their order |
| Dedup.DistinctTitlesCount | publishing_profiler.py:97 | rows with distinct titles are exactly as many as their titles |
| Dedup.DropDuplicateTitlesSpec | publishing_profiler.py:97 | after de-duplication no two rows share a title (missing titles count as one), the set of titles is unchanged, there is one row per title, each row is the first of its title, order is kept, and de-duplicating again changes nothing |
| CorrespondingAuthor.IsIsuCorrespondingAuthorSpec | publishing_profiler.py:117-121 | the flag holds iff RP is present and its upper-cased text contains one of "IOWA STATE UNIV", "AMES LAB", "AMES, IA", "USDA" |
| CorrespondingAuthor.IsIsuCorrespondingAuthorIgnoresCase | publishing_profiler.py:117-121 | the flag does not depend on the letter case of the address |
| CorrespondingAuthor.UniversityAddressIsFlagged | publishing_profiler.py:117 | an address beginning with "Iowa State Univ" is flagged |
| CorrespondingAuthor.WithCaColumnSpec | publishing_profiler.py:123 | adding the column keeps the row count and every row, and each row's flag is the test applied to its RP |
| CorrespondingAuthor.CaMaskSpec | publishing_profiler.py:132-135 | the mask has one entry per row; it holds for "Yes" exactly on flagged rows and for "No" on every row |
| CorrespondingAuthor.MaskedRowsIsFilter | publishing_profiler.py:137 | selecting with a mask that is a predicate of each row is filtering by that predicate |
| CorrespondingAuthor.SelectedOnFlaggedTable | publishing_profiler.py:137 | on the table the mask was built from, selection succeeds and gives the flagged rows for "Yes" and all rows for "No" |
| PublisherJoin.MatchingNamesSpec | publishing_profiler.py:141 | a name is matched for a code iff the lookup table lists that code with that name; with unique codes at most one name matches |
| PublisherJoin.NoListingNoNames | publishing_profiler.py:141 | a code the lookup table does not list matches no name |
| PublisherJoin.RightMergeLength | publishing_profiler.py:141 | the right merge never loses rows, and it keeps the row count exactly when no row's code is listed twice |
| PublisherJoin.RightMergeUnique | publishing_profiler.py:141 | with unique codes: one output row per input row, in order, with the original row unchanged; `PU_cleaned` is the listed name of the row's code, and missing when the code is missing or not listed |
| PieCounts.BumpCounts | publishing_profiler.py:150 | counting one more occurrence of a name raises that name's count by one, leaves every other name's count alone, and raises the total by one |
| PieCounts.BumpNames | publishing_profiler.py:150 | counting an occurrence adds its name to the listed names and nothing else |
| PieCounts.BumpPositive | publishing_profiler.py:150 | counting an occurrence keeps every count positive |
| PieCounts.BumpDistinct | publishing_profiler.py:150 | counting an occurrence never lists a name twice |
| PieCounts.TallyFromSpec | publishing_profiler.py:150 | the tally's count for each name is its number of occurrences, its total is the number of present cells, and it lists exactly the present names, each once |
| PieCounts.CountOfEntry | publishing_profiler.py:150 | with distinct names, looking up an entry's name returns that entry's count |
| PieCounts.InsertPermutes | publishing_profiler.py:150 | inserting an entry gives a permutation of the entries plus that one |
| PieCounts.InsertNames | publishing_profiler.py:150 | inserting an entry adds exactly its name to the names |
| PieCounts.InsertTotal | publishing_profiler.py:150 | inserting an entry adds exactly its count to the total |
| PieCounts.InsertSorted | publishing_profiler.py:150 | inserting into a list sorted by descending count keeps it sorted |
| PieCounts.InsertDistinct | publishing_profiler.py:150 | inserting an entry with a new name keeps names distinct |
| PieCounts.SortByCountPermutes | publishing_profiler.py:150 | the sort is a permutation of its input (multiset equality) |
| PieCounts.SortByCountKeepsNamesAndTotal | publishing_profiler.py:150 | the sort keeps the set of names and the total |
| PieCounts.SortByCountSorted | publishing_profiler.py:150 | the sort puts the largest counts first and keeps names distinct |
| PieCounts.ValueCountsCounts | publishing_profiler.py:150 | every entry's count is the number of cells holding its name, and at least 1 |
| PieCounts.ValueCountsShape | publishing_profiler.py:150 | a name has an entry iff it occurs in the column; no name has two entries; counts do not increase down the table; the counts sum to the number of present cells |
| PieCounts.ValueCountsSpec | publishing_profiler.py:150 | every entry's count is the number of cells holding its name and at least 1; a name has an entry iff it occurs; no name has two entries; counts do not increase down the table; the counts sum to the number of present cells |
| PieCounts.PieTotalAndOrder | publishing_profiler.py:150-155 | after the relabel the slices still sum to the present cells, each counts at least one cell, and the largest come first |
| PieCounts.PieSliceNames | publishing_profiler.py:150-155 | after the relabel a slice of 3 or more keeps its name and counts exactly that name's cells, and every smaller slice is named "Other" |
| PieCounts.LargePublishersHaveSlices | publishing_profiler.py:150-155 | every name with 3 or more cells has a slice with that name and that count |
| PieCounts.PieOfNames | publishing_profiler.py:150-155 | the pie drawn from a name column has all of the above properties together |
| PieCounts.PresentCountOfLabels | publishing_profiler.py:150 | the number of present names in the selected rows is the number of selected rows with a publisher name |
| PieCounts.RelabelSmallSlices | publishing_profiler.py:155 | the in-place relabel leaves the array equal to the entries with every name whose count is below 3 replaced by "Other" |
| PieCounts.TotalOfSameCounts | publishing_profiler.py:155 | renaming entries without touching their counts keeps the total |
| PieCounts.RelabeledSpec | publishing_profiler.py:155 | the relabel keeps the number of entries, every count, the total and the order; an entry is named "Other" afterwards iff its count is below 3 (or it was "Other"); exactly the entries with a count below 3 and another name change |
| Profiler.RunProfiler | publishing_profiler.py:46-155 | the step-by-step script (array writes for DI and for the relabel, table reassignments in between) produces exactly the report `Pipeline` specifies, including the failure |
| Profiler.PipelineFailsOnlyOnLongerMerge | publishing_profiler.py:150 | selecting the merged rows with the mask fails exactly when the merge added rows |
| Profiler.MergeAddsNoRow | publishing_profiler.py:141 | the merge adds no row exactly when no kept row's publisher code is listed twice in the lookup table |
| Profiler.PipelineSucceeds | publishing_profiler.py:133-150 | the charts render exactly when no kept row's code is listed twice in the lookup table; with unique codes they always render |
| Profiler.RemovedCountShown | publishing_profiler.py:101-102 | the "Remove" figure (loaded count from line 62 minus kept rows after line 97) equals the size of the removed table plus the rows lost to de-duplication (rows before de-duplication minus distinct titles), so it is never below the removed table's size |
| Profiler.DedupCountBound | publishing_profiler.py:97 | a table has no more distinct titles than rows |
| Profiler.KeptRows | publishing_profiler.py:75-97 | after cleaning, titles are distinct, rows keep their loaded order, and every row is a non-book-review article or review with a DOI free of upper-case letters |
| Profiler.RowsOfMasked | publishing_profiler.py:150 | masking merged rows and then dropping `PU_cleaned` is the same as masking the unmerged rows |
| Profiler.SelectedRows | publishing_profiler.py:132-150 | with unique codes the charted rows are, in order, the flagged kept rows for "Yes" and all kept rows for "No", and their number is the sidebar's count |
| Profiler.PieSlices | publishing_profiler.py:150-155 | the slices sum to the charted rows with a publisher name; each slice counts at least one row and the largest come first; a slice of 3 or more keeps its name and counts exactly that publisher's charted rows; every publisher with 3 or more charted rows has such a slice; smaller slices are named "Other" |

## Left out

- The Streamlit page is not modelled: page setup, headers, checkboxes, `st.write` of tables, the sidebar widgets, balloons and the progress bar with its `time.sleep` (lines 19-70, 100-113, 127-130). Only the radio button's answer is modelled, as a parameter.
- The file reads (`read_csv` of the export at line 46 and of `Publisher_list_converter.csv` at line 140) and the `to_csv` at line 143 are not modelled. The export and the lookup table are parameters. Type inference while parsing is not modelled either: a column that is entirely empty is read as floats, and then `.str` or the merge fails.
- All charts (lines 157-284) are not modelled. This includes Plotly's pie drawing, which would merge slices of the same name, and the top-10 rank filter that Altair evaluates.
- The per-journal summary `groupby('SO')['PU_cleaned'].describe()` (lines 166-169) is not modelled. Its most-frequent column depends on pandas' tie-breaking.
- Case mapping covers ASCII letters only. Python's `str.upper`/`str.lower` also map other letters, and some of them to several characters.
- Only the columns the pipeline reads are modelled (DT, RP, TI, PU, SO, JI, DI). The export has many more, and they pass through every step unchanged.
- The lookup table's cells are modelled as present strings. A missing code or name in the lookup CSV is not modelled.
- PieCounts.ValueCounts: pandas sorts by descending count but does not fix the order of equal counts. The model keeps names with equal counts in first-appearance order. The proved properties (counts, sums, descending order, distinct names) hold for any tie order.
- The relabel happens after counting (line 155). Small publishers therefore become separate "Other" entries, one per publisher, rather than one combined count, and the model follows that code. A description of the program as relabelling before counting would not match it. The comment on line 155 speaks of "at least 5" publications, but the code's threshold of 3 is modelled.
- A lookup table that lists a code twice is modelled as pandas behaves: the merge repeats that row once per listing, and selecting with the mask then fails (`Failure(UnalignableMask)` instead of an exception). The page would stop with an error there. The pipeline's properties past the merge are stated under unique codes or under success.
