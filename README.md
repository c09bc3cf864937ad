# Student records: classification, gap analysis and CSV import

This project models the in-process logic of a small student-records tool.
The tool loads `(id_no, name, cgpa)` rows from a CSV file into the MySQL
table `student_records`, then runs three query exercises over it:

1. a performance-category breakdown: a `CASE` ladder on CGPA, grouped, with count, min, max and average per category;
2. letter grades: a per-student listing plus a grade distribution with percentages;
3. a gap analysis between consecutively ranked students.

CGPA is modelled in integer hundredths, so 3.85 is `385`. Averages and
percentages are Dafny `real`s.

Modules:

- `Wrappers` (`wrappers.dfy`): `Option`.
- `Seqs` (`seqs.dfy`): `Sum`, `Max`, `Min` and `FirstIndex` (Python's `list.index`) over integer lists, with bound lemmas.
- `Students` (`students.dfy`): the table row `Student`, the CGPA column `Scores`, and the order `ORDER BY cgpa DESC` yields.
- `Grading` (`grading.dfy`): a generic threshold ladder. A ladder is a list of bands, each with an inclusive lower bound; the first matching band wins, with a fallback label below all bands. The module also holds the expected result of a grouped `CASE` query (one row per non-empty label, ordered by minimum descending) and the percentage column.
- `Categories` (`categories.dfy`): the performance ladder (Excellent ≥ 3.8, Very Good ≥ 3.5, Good ≥ 3.3, Satisfactory ≥ 3.0, else Needs Improvement) and the letter-grade ladder (A+ ≥ 3.9, A ≥ 3.7, A- ≥ 3.5, B+ ≥ 3.3, B ≥ 3.0, B- ≥ 2.7, C+ ≥ 2.3, C ≥ 2.0, else F), plus the letter-grade query.
- `GapAnalysis` (`gap_analysis.dfy`): the gap list, the largest gap, the ranked rows with highlighting, and the closing analysis.
- `CsvImport` (`csv_import.dfy`): the import loop. Each row is checked, then inserted or skipped, with two counters. The run goes against a `StudentTable` object that is truncated, inserted into and committed.

The SQL of the three exercises is unwritten in the source: the files hold
placeholders where the queries go. Each query is therefore modelled as the
result its comments ask for. The grouped queries are modelled as
`Grading.Summarize`, which lists groups in ladder order. `Grading.SummarizeOrdered`
proves that this order is strictly descending by minimum CGPA, so it is
exactly what `ORDER BY min DESC` returns. The ranking queries are modelled
by taking the students already in CGPA-descending order. The lemmas about
rankings assume `Students.SortedByCgpaDesc`. The code itself never checks
that order, so the methods do not require it.

## Model

| member | source | states |
|---|---|---|
| `Grading.BandIndex` | additional_queries_exercise.py:28-33 | The chosen band is the first whose inclusive lower bound the score reaches: no earlier band matches, and the chosen one does. Position `|bands|` means the fallback. |
| `Grading.BandIndexInterval` | additional_queries_exercise.py:82-91 | On a strictly descending ladder, band `k` is chosen if and only if the score lies in `[bands[k].lower, bands[k-1].lower)`. So every score gets exactly one label. |
| `Categories.PerformanceCategoryIntervals` | additional_queries_exercise.py:28-33 | Each performance category holds exactly its CGPA interval, with inclusive lower bounds (Excellent iff ≥ 3.80, Very Good iff 3.50 ≤ c < 3.80, …, Needs Improvement iff < 3.00). 3.50 maps to Very Good. |
| `Categories.LetterGradeIntervals` | additional_queries_exercise.py:82-91 | Each of the nine letter grades A+ … F holds exactly its CGPA interval, with inclusive lower bounds. |
| `Categories.LetterGradeLadderDescending` | additional_queries_exercise.py:82-91 | The letter-grade thresholds strictly decrease in the order they are tried. |
| `Grading.MembersExactly` | additional_queries_exercise.py:41-45 | A score is in group `k` if and only if it is an input score classified to `k`. So the groups partition the students: each student is in its own band's group and in no other. |
| `Grading.MembersMultiplicity` | additional_queries_exercise.py:41-45 | The partition counted with multiplicity: for every CGPA value, group `k` holds as many copies as the input does when that value is classified to `k`, and none otherwise. Students with equal CGPAs are all counted in their group. |
| `Grading.SummarizeRows` | additional_queries_exercise.py:41-45 | A row is in the grouped result if and only if some ladder position has a non-empty group and the row carries that position's label, the group's count, `MIN`, `MAX` and sum. So there is exactly one row per non-empty category, and no other rows. |
| `Grading.SummarizeFromRows` | additional_queries_exercise.py:41-45 | From ladder position `k` on, a row is produced if and only if it is the row of some non-empty group at position `k` or later. |
| `Grading.SummarizeCounts` | additional_queries_exercise.py:41-45 | The `COUNT` column of the grouped query adds up to the number of students. |
| `Grading.SummarizeOrdered` | additional_queries_exercise.py:110-114 | The grouped rows are ordered by `MIN(cgpa)`, strictly descending. |
| `Grading.SummarizeStats` | additional_queries_exercise.py:41-45 | Every grouped row has a positive count (empty groups are omitted), and its average lies between its minimum and maximum. |
| `Grading.SummarizeFromStats` | additional_queries_exercise.py:41-45 | Every grouped row from position `k` on satisfies count × min ≤ sum ≤ count × max. |
| `Grading.SummarizeFromOrdered` | additional_queries_exercise.py:41-45 | The grouped rows have disjoint score ranges: every CGPA of a later row is below every CGPA of an earlier row. |
| `Grading.GroupBounds` | additional_queries_exercise.py:41-45 | Every CGPA in the group of band `k` reaches that band's lower bound and stays below the previous band's, so each group's `MIN` and `MAX` lie in the band's interval. |
| `Grading.SummarizeFromBelow` | additional_queries_exercise.py:41-45 | Rows for band `k` and later all lie below the lower bound of band `k-1`. |
| `Categories.PerformanceSummaryProperties` | additional_queries_exercise.py:41-45 | The performance breakdown: counts add up to the number of students, rows are strictly ordered by minimum descending, and min ≤ average ≤ max in every row. |
| `Grading.Percentages` | additional_queries_exercise.py:145-152 | The percentage loop yields `count / total × 100` for each grade row, in row order. It fails, like Python's division by zero, exactly when the total is 0 and there is a row. |
| `Grading.PercentagesSum` | additional_queries_exercise.py:145-147 | The percentages add up to (sum of counts) × 100 / total. |
| `Grading.Distribution` | additional_queries_exercise.py:145-152 | Over one set of scores, the grouped rows are ordered and their counts add up to the total. The percentage division never fails, and the percentages add up to 100 whenever there is a score. |
| `Categories.RunLetterGradeQuery` | additional_queries_exercise.py:107-152 | The letter-grade query has three parts: the listing of every student in order with the letter grade of their CGPA, the grade distribution ordered by minimum descending with counts adding up to the student count, and one percentage per grade row. The percentages add up to 100 when there is a student, and are empty when there is none. |
| `GapAnalysis.GapsShape` | additional_queries_exercise.py:188-193 | For n students there are n − 1 gaps (none when n = 0), and gap `i` is `cgpa[i] − cgpa[i+1]`. |
| `GapAnalysis.GapsNonNegative` | additional_queries_exercise.py:169-171 | When students are ordered by CGPA descending, no gap is negative. |
| `GapAnalysis.GapsTelescope` | additional_queries_exercise.py:188-193 | The gaps add up to the first student's CGPA minus the last student's. |
| `GapAnalysis.ComputeGaps` | additional_queries_exercise.py:188-193 | The gap loop builds exactly the list of consecutive differences. |
| `GapAnalysis.MaxGap` | additional_queries_exercise.py:195 | `max_gap` is at least every gap, and equals some gap when there are gaps. It is 0 when there are none. |
| `GapAnalysis.MaxGapPositive` | additional_queries_exercise.py:224 | In a CGPA-descending ranking, the largest gap is positive if and only if there are at least two students and the first CGPA is above the last. |
| `GapAnalysis.AverageGapOfRanking` | additional_queries_exercise.py:235 | In a ranking of at least two students, the average gap is (first − last) / (n − 1), and it lies between 0 and the largest gap. |
| `GapAnalysis.BuildRows` | additional_queries_exercise.py:198-211 | There is one row per student, with ranks 1..n in order. Only the last row shows "N/A". Every other row shows the gap to the next student and is highlighted exactly when that gap equals `max_gap`. |
| `GapAnalysis.RunGapAnalysis` | additional_queries_exercise.py:187-236 | Row `i` shows `gaps[i]` and is highlighted iff `gaps[i]` equals the maximum, so tied maxima are all highlighted, and at least one row is highlighted when n ≥ 2. The closing analysis appears if and only if `max_gap > 0`. It then names students `k` and `k+1`, where `k` is the first index whose gap is the maximum, together with the average gap. |
| `Seqs.FirstIndex` | additional_queries_exercise.py:225 | `gaps.index(max_gap)` is the first position holding that value. |
| `Seqs.Max` | additional_queries_exercise.py:195 | `max` of a non-empty list is an element of the list and is at least every element. |
| `Seqs.Min` | additional_queries_exercise.py:41-45 | `MIN` of a non-empty group is an element of it and is at most every element. |
| `CsvImport.AcceptedPlusSkipped` | csv_importer.py:38-57 | Every data row is counted once: `record_count + skipped_count` is the number of rows after the header. |
| `CsvImport.AcceptedAppend` | csv_importer.py:38-57 | Importing two runs of rows one after the other inserts the first run's records, then the second's, so input order is kept. |
| `CsvImport.AcceptedExactly` | csv_importer.py:40-57 | A record is inserted if and only if some data row has exactly three fields, its third field parses, and the record is that row's `(id_no, name, parsed cgpa)`. Rows failing either check are never inserted. |
| `CsvImport.StudentTable.Truncate` | csv_importer.py:22 | `TRUNCATE TABLE` leaves the table empty, and the emptying is committed at once. |
| `CsvImport.StudentTable.Insert` | csv_importer.py:55-56 | An insert appends one row, which stays uncommitted until the commit. |
| `CsvImport.StudentTable.Commit` | csv_importer.py:61 | The commit makes the committed contents equal to what the connection sees. |
| `CsvImport.ImportCsv` | csv_importer.py:6-74 | A missing file returns False with the table untouched. Otherwise the table is truncated first. An unreadable file, or an empty file with no header to join, returns False and leaves the table empty. Otherwise the header is skipped and rows with a wrong field count or an unparsable CGPA are skipped. The table then holds exactly the accepted rows in input order, committed, and returns True. `record_count + skipped_count` equals the number of data rows. |

## Left out

- The SQL text is not modelled: the source leaves the queries as placeholders. Each query is modelled as the result its comments describe (see above).
- Floating point is not modelled. CGPA is held in exact hundredths, so the `FLOAT` column's single-precision rounding, and its effect on `>=` at a threshold or on `gap == max_gap`, is not captured. Averages and percentages are exact rationals.
- Python's `float()` conversion is the parameter `parse` of `CsvImport.ImportCsv`. The model does not fix which strings it accepts ("nan", "inf", …) or how they map to hundredths.
- CSV tokenising (quoting, delimiters, line endings) is not modelled: the file is given as its list of rows of fields.
- The model has no database errors. `get_db_connection` (csv_importer.py:17) is called before the `try` block, so its failure raises instead of returning False, and that is not modelled. Insert and commit failures are not modelled either; in the source they are caught and return False (csv_importer.py:68-70).
- `CsvImport.ImportCsv`: does not model the database rejecting a duplicate `id_no` under the primary key (db_config.py:38). The source would then fail the import with False; the model inserts the duplicate.
- Closing the connection, every `print`/console message, the `rich` tables, and the `:.2f`/`:.1f`/`:.3f` formatting are presentation and are not modelled. The import's counters are returned because the source reports them.
- `db_config.py` (connection setup, environment, DDL), `main.py` (orchestration) and `data_analyzer.py` (SQL aggregates and printing) are not part of this model.
- The code has no stable tie order, no configuration or invalid-record errors, and no "none" result for empty input, and the model adds none of them. Ties keep whatever order the database returns. With fewer than two students `max_gap` is 0 and there is no closing analysis.
- The percentage column divides by the number of listed students, not by the sum of the grouped counts. `Categories.RunLetterGradeQuery` takes both queries as reading the same table and proves that the two totals agree, which is why the division never fails.
