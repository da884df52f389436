# QuestionnaireAnalysis in Dafny

This project models `QuestionnaireAnalysis` from `hw5.py`. The class
analyses the answers of a questionnaire experiment. Each participant is one
row of a table with an age, a gender, an email address and the grades of
five questions `q1`..`q5`. Age, gender and grades may be missing.

The class has five operations:

- **Age distribution** (`show_age_distrib`): a histogram of the ages over ten bins spanning [0, 100].
- **Email filter** (`remove_rows_without_mail`): keeps the rows whose email matches a fixed regular expression, then resets the index.
- **Mean imputation** (`fill_na_with_mean`): replaces, in place, each missing grade by the mean of the present grades of its row.
- **Scoring** (`score_subjects`): gives each subject the floored mean of their grades, or NA when too many grades are missing. It stores the result in place as a nullable `UInt8` column.
- **Group means** (`correlate_gender_age`): the mean of each question per group, where a group is a gender together with whether the age is above 40.

Modules:

- `Table` (`table.dfy`): the row type, missing values as `Option`, and the row mean that skips missing grades.
- `AgeDistribution` (`age_distribution.dfy`): the histogram. It is specified as differences of cumulative counts at the edges, which is how it is computed. It is proved equal to counting each age in bin ⌊a/10⌋.
- `EmailFilter` (`email_filter.dfy`): the pattern as a small regular-expression datatype. Its meaning is declarative: a concatenation matches when some split of the string matches its two parts. It is proved equivalent to a plain description of a valid address. The filter keeps each row's old index label, which `reset_index` adds as the `index` column. Under the default index 0..n-1 that label is the row's position.
- `Imputation` and `Scoring` (`imputation.dfy`, `scoring.dfy`): the row-level rules as functions.
- `Questionnaire` (`questionnaire.dfy`): the class. It holds the table as an array of rows and the `score` column, and the two operations that change them are methods with loops.
- `GenderAge` (`gender_age.dfy`): the groups, their order and their means.

Grades and ages are exact reals, so there is no floating-point rounding. A
missing value (NaN) is `None`. Reading the table from a JSON file is not
modelled: the class is built from the rows directly.

## Model

| member | source | states |
|---|---|---|
| Table.MissingCount | hw5.py:91 | The missing grades and the present ones add up to the row length. The count is zero exactly when every grade is present, as `isna().any(axis=1)` at hw5.py:63 tests. |
| Table.RowMean | hw5.py:92 | The mean that skips missing grades, also used by the imputation at hw5.py:64, is absent exactly when every grade is missing. |
| Questionnaire.QuestionnaireAnalysis.constructor | hw5.py:14-24 | The analysis holds exactly the given rows, with no score column and no threshold recorded yet. |
| AgeDistribution.ShowAgeDistrib | hw5.py:35-37 | There are ten counts and eleven edges 0, 10, ..., 100. Count i is the number of ages in bin i. The counts add up to the number of ages within [0, 100]. |
| AgeDistribution.CountBelowEdge | hw5.py:36 | The number of ages counted at an edge never exceeds the number of rows. |
| AgeDistribution.CountBelowEdgeMonotone | hw5.py:35-36 | The cumulative count never falls from one edge to the next. |
| AgeDistribution.Histogram | hw5.py:36 | There are ten counts, the differences of the cumulative counts at successive edges, and none is negative. |
| AgeDistribution.BinOfEdges | hw5.py:35-36 | An age raises the cumulative count at edge i+1 but not at edge i exactly when it falls in bin i. The bins are half-open except the last. |
| AgeDistribution.HistogramCountsBins | hw5.py:36 | Each histogram count equals the number of present ages whose bin is that one. |
| AgeDistribution.Telescope | hw5.py:36 | The per-bin differences of the cumulative counts add up to the last count minus the first. |
| AgeDistribution.OuterEdges | hw5.py:35-36 | The ages counted at edge 100 but not at edge 0 are exactly the ages in [0, 100]. |
| AgeDistribution.HistogramTotal | hw5.py:36 | Ages below 0, above 100 or missing are counted nowhere: the counts sum to the number of ages in [0, 100]. |
| AgeDistribution.BinOf | hw5.py:35-36 | An age has a bin exactly when it lies in [0, 100], and the bin is one of the ten. |
| AgeDistribution.BinExamples | hw5.py:35-36 | 0 and 9.5 fall in bin 0, 10 in bin 1, 99 and 100 in bin 9; 100.5 and -1 fall in none. |
| EmailFilter.LocalPatternSound | hw5.py:47 | What `[a-z0-9]+[\._]?[a-z0-9]+` matches is at least two lowercase letters or digits, with at most one `.` or `_`, and that separator neither first nor last. |
| EmailFilter.LocalPatternComplete | hw5.py:47 | Every such local part is matched by `[a-z0-9]+[\._]?[a-z0-9]+`. |
| EmailFilter.DomainPatternSound | hw5.py:47 | What `\w+[.]\w{1,6}` matches is word characters, one dot, then one to six word characters. |
| EmailFilter.DomainPatternComplete | hw5.py:47 | Every such domain is matched by `\w+[.]\w{1,6}`. |
| EmailFilter.EmailPatternSound | hw5.py:47 | A string the whole pattern matches is a valid local part, `@`, and a valid domain. |
| EmailFilter.EmailPatternComplete | hw5.py:47 | Every valid local part, `@`, and valid domain is matched by the whole pattern. |
| EmailFilter.EmailPatternIff | hw5.py:47 | The pattern matches a string if and only if it is a valid address. |
| EmailFilter.EmailMatches | hw5.py:47-48 | `str.contains` with the anchored pattern keeps an email if and only if it is a valid address, or one followed by a single final newline, as `$` allows. |
| EmailFilter.ValidEmailStart | hw5.py:47 | A kept address starts with a lowercase letter or digit, followed by another or by a separator. |
| EmailFilter.LocalParts | hw5.py:47 | A non-empty run of letters or digits, at most one separator, then another non-empty run form a valid local part. |
| EmailFilter.JoinValid | hw5.py:47 | A valid local part, `@` and a valid domain form a valid address. |
| EmailFilter.KeepFrom | hw5.py:48 | The boolean mask keeps at most one output row per input row. Which rows and which positions are stated by KeepFromSound, KeepFromAscending and KeepFromComplete. |
| EmailFilter.KeepFromSound | hw5.py:48 | Every kept row is the row at its recorded position and satisfies the filter. |
| EmailFilter.KeepFromAscending | hw5.py:48 | The kept rows keep their original relative order: the recorded positions strictly increase. |
| EmailFilter.KeepFromComplete | hw5.py:48 | Every row that satisfies the filter is kept. |
| EmailFilter.RemoveRowsWithoutMail | hw5.py:47-48 | The result is exactly the rows whose email matches, in original order, each with its old position. New positions are 0..k-1. The input is not changed. |
| EmailFilter.KeepAll | hw5.py:48 | When every row passes, every row is kept, each with its own position. |
| EmailFilter.Numbered | hw5.py:48 | The rows numbered from a start position: row i gets position start + i. |
| EmailFilter.FilterIdempotent | hw5.py:48 | Filtering the filtered rows again gives the same rows, and the old positions it records are 0..k-1. |
| EmailFilter.KeptExamples | hw5.py:47-48 | `john.doe@example.com`, `ab@b.c`, and `ab@b.c` followed by a newline are kept. |
| EmailFilter.DroppedExamples | hw5.py:47-48 | `John@example.com` (uppercase) and `a@b.c` (one-letter local part) are dropped. |
| EmailFilter.LongDomainExample | hw5.py:47 | A final domain part of seven characters (`example.toolong`) is not a valid domain. |
| Imputation.FillWith | hw5.py:64 | Filling with a value keeps the length and every present grade, and puts that value in every gap. |
| Imputation.FillWithSum | hw5.py:64 | After filling, every grade is present, and their sum grows by the value once per gap. |
| Imputation.ImputeRow | hw5.py:62-65 | Present grades are unchanged, and every gap gets the row's mean. A complete row and an all-missing row are unchanged. |
| Imputation.ImputeRowMean | hw5.py:64 | After imputation nothing is missing unless the row had no grade at all, and the row mean is the same as before. |
| Imputation.MeanPreserved | hw5.py:64 | Filling the gaps with the row mean leaves the row mean where it was. |
| Imputation.PaddedMean | hw5.py:64 | Adding k copies of the mean of p values to them keeps the mean. |
| Imputation.PaddedMeanOf | hw5.py:64 | p values with mean m together with k copies of m have mean m. |
| Imputation.Impute | hw5.py:62-65 | Every row is imputed, and its age, gender and email are unchanged. |
| Imputation.ImputeIdempotent | hw5.py:62-65 | Imputing a second time changes nothing. |
| Imputation.MissingAfterImpute | hw5.py:62-65 | After imputation a row still misses a grade if and only if it missed all of them. |
| Imputation.ImputeExample | hw5.py:64 | The row [80, NA, 90, NA, 100] becomes [80, 90, 90, 90, 100]. |
| Questionnaire.PositionsMissingMoreThan | hw5.py:63 | The positions are strictly ascending, and they are exactly the rows that miss more than the limit of grades. |
| Questionnaire.QuestionnaireAnalysis.FillNaWithMean | hw5.py:62-66 | The table becomes the imputed table. The returned positions are strictly ascending, and they are exactly the rows that missed a grade before the call, all-missing rows included. |
| Questionnaire.WriteRows | hw5.py:65 | Writing the imputed rows back leaves the table holding exactly them. |
| Scoring.FlooredMean | hw5.py:92 | A row with no present grade has no score. Otherwise the score is the largest integer not above the row mean, within 0..255 when the grades are. |
| Scoring.Score | hw5.py:91-93 | The score is NA exactly when more grades are missing than the threshold, or all of them are. Otherwise it is the floor of the mean of the present grades. |
| Scoring.AsUInt8 | hw5.py:94 | The cast keeps NA and the value of an in-range score. |
| Scoring.ScoreAfterImputation | hw5.py:91-93 | After imputation, a row with some grade scores under any non-negative threshold as its original grades would with no threshold. |
| Scoring.ScoreCompleteRow | hw5.py:92 | [81, 82, 83, 84, 85] scores 83. |
| Scoring.ScoreThreshold | hw5.py:91-93 | [80, 90, 100, NA, NA] is NA under threshold 1 and 90 under threshold 2. |
| Scoring.ScoreAllMissing | hw5.py:92-94 | A row with every grade missing is NA whatever the threshold. |
| Questionnaire.FlooredMeans | hw5.py:92 | A new array holding each row's floored mean. |
| Questionnaire.SetMissing | hw5.py:93 | The listed positions become NA and every other entry is unchanged. |
| Questionnaire.CastColumn | hw5.py:94 | Every entry is cast to `UInt8`, NA staying NA. |
| Questionnaire.ScoreColumn | hw5.py:91-94 | The column has one entry per row: that row's score under the threshold, cast to `UInt8`. |
| Questionnaire.QuestionnaireAnalysis.ScoreSubjects | hw5.py:88-95 | Records the threshold and leaves the grades unchanged. Each row of the new score column is that row's score cast to `UInt8`. |
| Questionnaire.RescoreIsIdempotent | hw5.py:88-95 | Scoring twice with the same threshold gives the same column and leaves the table unchanged. |
| GenderAge.KeyOf | hw5.py:108-109 | A row has a group exactly when it has a gender. Its age flag is set exactly when the age is present and strictly above 40. |
| GenderAge.StrLessIrreflexive | hw5.py:109 | No gender sorts before itself. |
| GenderAge.StrLessTransitive | hw5.py:109 | The order of genders is transitive. |
| GenderAge.StrLessTotal | hw5.py:109 | Of two different genders, one sorts before the other. |
| GenderAge.KeyOrder | hw5.py:109 | The group order (gender, then not-above-40 first) is a strict total order. |
| GenderAge.InsertKey | hw5.py:109 | Adding a group to an ascending list keeps the list ascending and holds exactly the old groups and the new one. |
| GenderAge.GroupKeys | hw5.py:109 | The groups are listed in strictly ascending order. |
| GenderAge.GroupKeysExact | hw5.py:108-109 | A group is listed if and only if some row belongs to it. |
| GenderAge.GroupValues | hw5.py:109 | A group collects at most one answer to a question per row. |
| GenderAge.GroupValuesExact | hw5.py:109 | A value is averaged for a group and question if and only if some row of the group gave that answer. |
| GenderAge.GroupValuesMultiplicity | hw5.py:109 | Each answer value is collected exactly as many times as rows of the group gave it, so the mean weighs every row's answer once. |
| GenderAge.MeansOf | hw5.py:109 | The output row of a group has five cells, and each is the mean of the group's present answers to that question. |
| GenderAge.CorrelateGenderAge | hw5.py:107-110 | One output row per listed group. Each holds five cells, and each cell is the mean of the group's present answers to that question. |
| GenderAge.CorrelateGroups | hw5.py:108-109 | The output rows are ascending by group. Every output group has a row, and every row with a gender has its group in the output. |
| GenderAge.GroupMeanBounds | hw5.py:109 | When all answers to a question lie in [lo, hi], every group's mean of it does too. |
| GenderAge.GroupValuesAppendNone | hw5.py:108-109 | Appending a row without a gender adds no value to any group. |
| GenderAge.NoGenderIgnored | hw5.py:108-109 | A row without a gender changes no group and no value averaged. |
| GenderAge.AgeFortyExample | hw5.py:109 | Two men aged 40 and 45 form the groups (Male, not above 40) and (Male, above 40), in that order, each with the mean of its own answers. A question nobody in a group answered has no mean. |

## Left out

- Checking that the data file exists, the `ValueError`, and loading JSON (hw5.py:14-24) are file-system I/O. The constructor takes the loaded rows instead.
- Plotting: nothing in the class draws, although matplotlib is imported.
- Floating point: grades, ages and means are exact reals, with no IEEE-754 rounding.
- `\w` is taken as ASCII `[A-Za-z0-9_]`, where Python 3 also accepts other Unicode word characters. Emails that are not strings, or are missing, are not modelled: every row has a string email.
- EmailFilter.RemoveRowsWithoutMail: the old position is kept as one field of the result, like the `index` column. A second `reset_index` on the filtered table would add a further `level_0` column. So the filter is idempotent on the rows and their positions, not on the column set of the whole table.
- pandas dtype machinery: the `UInt8` cast fails on a score that is not NA and lies outside 0..255. Scoring requires of its caller that no row's score does so, and does not model the failure. Grades within 0..255 always meet this requirement.
- Index alignment and chained assignment at hw5.py:48 and hw5.py:93-94: the table is taken to have the default index 0..n-1, so the label that `reset_index` keeps is the row's position, and `df['score'].loc[...] = nan` is taken to write into the table.
- The returned table objects: `fill_na_with_mean` and `score_subjects` return `self.data` itself. The model returns only the positions from the first and nothing from the second; the updated table is the object's state.
- Non-question columns in `correlate_gender_age`: only `q1`..`q5` are averaged. Whether pandas first tries to average the non-numeric `email` column depends on its version. Older versions drop that column silently. From pandas 2 on, `.mean()` raises a `TypeError` on it and the call returns nothing. The model follows the versions that drop the column.
- The email regex is matched by the anchored pattern only. Other search semantics of `str.contains` play no part because the pattern starts with `^`.
- The `score` column stored in the table: hw5.py:92-94 make `score` a column of `self.data`. The model keeps the column beside the rows. The email filter takes the rows alone, so its result carries no scores, where the source's filtered table keeps the scores of the kept rows.
