# Classroom data scripts, modelled in Dafny

This project models the deterministic logic of four classroom Python scripts and proves properties of it:

- **Campus energy pipeline** (`assignment5`). Modules `EnergyColumns`, `EnergyIngest`, `EnergyAggregate` and `EnergyBuildings`.
  - It resolves the timestamp, reading and building-label columns of every CSV file. A label is a name, or NaN when the first label cell is one `read_csv` reads as missing.
  - It skips unreadable or unresolvable files with an issue, and drops rows that do not parse.
  - It concatenates the kept rows in file-name order and sorts them by timestamp.
  - It computes per-building statistics (count, sum, min, max, mean) over the rows with a named building, the per-period (day, week, hour) totals, and the campus summary with its top building, its peak hour and its "no data" case.
  - It fills a `BuildingManager` of `Building` objects row by row.
- **Library inventory** (`assignment3`). Module `Library`.
  - `Book` is an object whose status moves between "available" and "issued".
  - `LibraryInventory` is an ordered list of books. Books are appended, and searched first-match by exact ISBN or by case-insensitive title.
  - Issuing a book succeeds only when it is found and available; returning succeeds whenever it is found.
- **Gradebook** (`assignment2`). Module `Gradebook`.
  - Loading the marks dict from CSV rows.
  - Average, maximum and minimum.
  - The letter-grade threshold chain and the grade tally.
  - The pass/fail split at 40.
- **Weather** (`asssignment4`). Module `Weather`.
  - The month-to-season function.
  - Filling missing rainfall with 0.

Supporting modules:

- `Wrappers`: `Option`.
- `Text`: ASCII lower-casing, substring tests, prefix before a character, and lexicographic order.
- `Search`: first match and arg-max.
- `Sorting`: insertion sort with its permutation and order contract.
- `RealStats`: sum, min, max and mean of reals.
- `Grouping`: group-by over sequences, distinct keys, and group sums that add up to the whole.

How the model represents the scripts' inputs:

- Timestamps are integer instants. Readings and scores are `real`.
- Parsing is a parameter of type `string -> Option<...>`. It stands for `pd.to_datetime(errors='coerce')`, `pd.to_numeric(errors='coerce')` and `float()`.
- A CSV file that `pd.read_csv` accepted is a rectangular `Table` of named columns. Each column has a numeric-dtype flag and its cells as text. A file it rejected carries only the exception text.
- A cell reads as NaN when its text is one of `read_csv`'s default NA strings (`""`, `"NA"`, `"N/A"`, `"null"`, `"nan"` and the others listed in `NaStrings`, as in pandas 1.x). A building label read that way is the label `Missing`.
- Day, week and hour bucketing is an abstract `bucket: int -> int`, a map from an instant to the start of its period.

What the code does at its edges, as the model states it:

- The issue reasons are the strings recorded at assignment5 lines 36, 49 and 63: the exception text, `"NoTimestamp"` and `"NoKwh"`.
- The sort at line 79 is not stable, so no tie order among equal timestamps is claimed.
- A file with a label column and no rows makes `df[col].iloc[0]` at line 42 raise `IndexError` outside the `try`. That ends the run, which the model states as `CrashedOn(file)`.
- A first label cell read as NaN passes the `building is None` test of line 44, so every row of that file carries the NaN label. `groupby('building')` at lines 94, 100 and 107 drops those rows, while the campus total of line 203 and the hourly resample of line 208 keep them. When no row has a named building, the summary of line 107 is empty, and `compose_summary` answers "No data available." at lines 200-201 even though the frame is not empty.

## Model

| member | source | states |
|---|---|---|
| Weather.Season | asssignment4/assignment4.py:61-68 | The result is always one of the four labels. It is "Winter" exactly for 12, 1 and 2, "Summer" exactly for 3 to 5 and "Monsoon" exactly for 6 to 8, so every other number is "Post-Monsoon". |
| Weather.SeasonByQuarter | asssignment4/assignment4.py:61-68 | Alternative definition for calendar months: month m gets the label of quarter (m mod 12) / 3, counted from December. |
| Weather.SeasonOutsideCalendar | asssignment4/assignment4.py:61-68 | A number outside 1..12 falls through every test to "Post-Monsoon". |
| Weather.FillRainfall | asssignment4/assignment4.py:12 | The fill keeps the length: a missing entry becomes 0 and a present entry is kept. |
| Weather.FillRainfallKeepsTotal | asssignment4/assignment4.py:12 | The filled column sums to the sum of the present entries. |
| Weather.FillRainfallIdempotent | asssignment4/assignment4.py:12 | Filling an already-filled column changes nothing. |
| Gradebook.Put | assignment2/assignment2.py:41 | `marks[name] = score`: a new name goes to the end of the insertion order, a known name keeps its place, and the name's score is replaced. |
| Gradebook.AcceptRow | assignment2/assignment2.py:37-43 | A row yields a mark exactly when it has at least two fields and the second parses. The mark is (first field, parsed score). |
| Gradebook.PutStep | assignment2/assignment2.py:36-43 | One accepted row keeps the loading invariant. The order is the distinct names of the accepted rows, first occurrence first, and each name's score is that of its last accepted row. |
| Gradebook.LoadMarks | assignment2/assignment2.py:36-43 | After the loop, names are in first-accepted order and every name maps to the score of its last accepted row. A name with no accepted row is absent. |
| Gradebook.CalcAvg | assignment2/assignment2.py:54-55 | On non-empty marks the average is the sum of the scores over their count, and it lies between the minimum and the maximum. |
| Gradebook.MaxScore | assignment2/assignment2.py:60-61 | On non-empty marks the maximum is some student's score, and no score exceeds it. |
| Gradebook.MinScore | assignment2/assignment2.py:63-64 | On non-empty marks the minimum is some student's score, and no score is below it. |
| Gradebook.GradeOf | assignment2/assignment2.py:82-91 | A is score >= 90; B is 80 <= score < 90; C is 70 <= score < 80; D is 60 <= score < 70; F is score < 60. Each band is stated as an if-and-only-if. |
| Gradebook.GradeMonotonic | assignment2/assignment2.py:82-91 | A higher score never gets a worse grade. |
| Gradebook.AssignGrades | assignment2/assignment2.py:79-92 | `grades` has exactly the names of `marks`, each with the grade of its score. |
| Gradebook.CountGrades | assignment2/assignment2.py:94-98 | All five grades have an entry, and each count is the number of students with that grade. |
| Gradebook.TallyTotal | assignment2/assignment2.py:94-98 | The five counts add up to the number of students. |
| Gradebook.Passed | assignment2/assignment2.py:106 | The names whose score is at least 40, in insertion order. |
| Gradebook.Failed | assignment2/assignment2.py:107 | The names whose score is below 40, in insertion order. |
| Gradebook.PassedIff | assignment2/assignment2.py:106 | A name is in `passed` exactly when it has a score of at least 40. |
| Gradebook.FailedIff | assignment2/assignment2.py:107 | A name is in `failed` exactly when it has a score below 40. |
| Gradebook.PassFailKeepOrder | assignment2/assignment2.py:106-107 | Both lists are subsequences of the insertion order. |
| Gradebook.PassFailCount | assignment2/assignment2.py:106-107 | The two lists together have one entry per student. |
| Library.Book.constructor | assignment3/assignment3.py:6-10 | A new book keeps its title, author and ISBN, and its status is "available", so `is_available()` holds. |
| Library.Book.IsAvailable | assignment3/assignment3.py:18-19 | A book is available exactly when its status, as its `to_dict()` record shows it, is "available". |
| Library.Book.ToDict | assignment3/assignment3.py:21-27 | The record holds the book's title, author, ISBN and status, field for field. |
| Library.Book.FromRecord | assignment3/assignment3.py:21-27 | Rebuilding a book from its `to_dict()` record, as `load_books` does at line 71, gives back the same four fields. |
| Library.Book.Issue | assignment3/assignment3.py:12-13 | After `issue` the status is "issued" and the book is not available. Title, author and ISBN are unchanged. |
| Library.Book.ReturnBook | assignment3/assignment3.py:15-16 | After `return_book` the status is "available". Title, author and ISBN are unchanged. |
| Library.LibraryInventory.constructor | assignment3/assignment3.py:36-37 | A new inventory has no books. |
| Library.LibraryInventory.AddBook | assignment3/assignment3.py:40-41 | The book goes at the end, and the earlier books stay in place in the same order. |
| Library.LibraryInventory.SearchByIsbn | assignment3/assignment3.py:49-53 | The result is the first book whose ISBN equals the query. It is null exactly when no book's ISBN does. |
| Library.LibraryInventory.SearchByTitle | assignment3/assignment3.py:43-47 | The result is the first book whose lower-cased title equals the lower-cased query. It is null exactly when no book's does. |
| Library.LibraryInventory.IssueBook | assignment3/assignment3.py:104-113 | Issuing succeeds exactly when the first book with that ISBN exists and is available. Only that book object becomes "issued". Otherwise no status changes, and the list and every title, author and ISBN stay the same. |
| Library.LibraryInventory.ReturnBook | assignment3/assignment3.py:115-124 | Returning succeeds exactly when a book with that ISBN exists, and that book becomes "available" whatever its status was. An unknown ISBN changes nothing. |
| EnergyColumns.FirstPresent | assignment5/assignment5.py:18-20 | The result is the first candidate that is among the columns. It is None exactly when no candidate is. |
| EnergyColumns.TimeLike | assignment5/assignment5.py:22 | The fallback test: the lower-cased column name contains "time" or "date", so a time-like name has at least four characters. |
| EnergyColumns.DetectTimestampCol | assignment5/assignment5.py:16-24 | A priority name that is present wins. Otherwise the result is the first column whose lower-cased name contains "time" or "date". It is None exactly when neither exists, and any result is a column. |
| EnergyColumns.TimestampIgnoresColumnOrder | assignment5/assignment5.py:16-20 | When a priority name is present, the choice does not depend on where the columns sit. |
| EnergyColumns.DetectValueCol | assignment5/assignment5.py:52-61 | A priority reading name that is present wins. Otherwise the result is the first numeric column other than the timestamp column. It is None exactly when neither exists, and any result is a column. |
| EnergyColumns.ValueNameIsNotTimeLike | assignment5/assignment5.py:53 | No reading priority name contains "time" or "date" in any case, so none can be the fallback timestamp column of line 22. |
| EnergyColumns.ValueColumnIsNotTimestamp | assignment5/assignment5.py:47-61 | The resolved reading column is never the resolved timestamp column. |
| EnergyColumns.Stem | assignment5/assignment5.py:45 | The stem is a prefix of the file name. A name longer than ".csv" that ends in ".csv" is its stem followed by ".csv"; any other name is its own stem. |
| EnergyColumns.ColumnNamed | assignment5/assignment5.py:42 | `df[name]` is a column of the table with that header. |
| EnergyColumns.BuildingLabel | assignment5/assignment5.py:39-45 | With no label column, the label is the name of the stem up to its first `_`. With a label column, the `IndexError` case (None) happens exactly when the file has no rows. Otherwise the label is NaN (`Missing`) exactly when the first cell is one of `read_csv`'s NA strings, and else the name in that cell. |
| Text.BeforeFirst | assignment5/assignment5.py:45 | `split('_')[0]`: the longest prefix without `_`, which stops at the first `_` when there is one. |
| EnergyIngest.ParseRow | assignment5/assignment5.py:70-74 | A row survives exactly when both its timestamp and its reading parse. It becomes a reading with those values and the file's label. |
| EnergyIngest.Extract | assignment5/assignment5.py:66-74 | At most one reading per row survives, and every surviving reading carries the file's label. |
| EnergyIngest.ExtractSound | assignment5/assignment5.py:70-74 | Every surviving reading comes from a row whose two cells parsed to it. |
| EnergyIngest.ExtractComplete | assignment5/assignment5.py:70-74 | Every row whose two cells parse survives. A bad row only drops itself. |
| EnergyIngest.ExtractAppend | assignment5/assignment5.py:70-74 | Filtering works row by row: the rows of two stacked tables filter to the two results stacked, in order. |
| EnergyIngest.Outcome | assignment5/assignment5.py:32-76 | The per-file body of the loop, in the code's order: read, label, timestamp column, reading column, row filtering. A crash happens only on a read file without rows, and kept rows come only from a read file. |
| EnergyIngest.OutcomeDecision | assignment5/assignment5.py:32-76 | This is the per-file decision table of the loop body. An unreadable file is skipped with its exception text. A missing label row crashes. Otherwise a missing timestamp column records "NoTimestamp" and a missing reading column records "NoKwh". Any other file is kept with rows labelled by its building, at most one per table row. |
| EnergyIngest.CrashCause | assignment5/assignment5.py:39-43 | A file crashes exactly when it was read, has a label column, and has no rows. |
| EnergyIngest.KeptIsExtract | assignment5/assignment5.py:66-76 | A kept file's readings are the surviving rows of its resolved timestamp and reading columns. |
| EnergyIngest.KeptReadingsParse | assignment5/assignment5.py:66-74 | Every kept reading comes from one table row whose timestamp cell and reading cell, in the resolved columns, parsed to its values. |
| Text.LexLe | assignment5/assignment5.py:27 | Python's string order, by code point, which `sorted` applies to the paths of one directory. A name is below every name it is a prefix of; any two names are comparable (`Text.LexLeTotal`). |
| EnergyIngest.SortedFiles | assignment5/assignment5.py:27 | The files are a permutation of the listing, sorted by name. |
| EnergyIngest.SortByTime | assignment5/assignment5.py:79 | The rows are a permutation of the input, sorted non-decreasing by timestamp. |
| EnergyIngest.KeptRowsAppend | assignment5/assignment5.py:31-76 | The rows and issues of a sequence of files are those of its two parts, in order. |
| EnergyIngest.SkippedFileContributesNoRows | assignment5/assignment5.py:32-37 | A skipped file adds its issue and no row. The rows are those of the files before it followed by those after it. |
| EnergyIngest.NoKeptFilesNoRows | assignment5/assignment5.py:78-81 | With no file kept, the combined frame is empty. |
| EnergyIngest.KeptRowsCarryLabels | assignment5/assignment5.py:68-79 | Every combined row is a kept reading of one file and carries that file's building label. |
| EnergyIngest.Flatten | assignment5/assignment5.py:79 | `pd.concat(frames)`: a row is in the combined frame exactly when it is in one of the frames (the order is stated by `EnergyIngest.FlattenSnoc`). |
| EnergyIngest.FlattenSnoc | assignment5/assignment5.py:79 | Concatenating one more frame appends its rows, in order, after the rows of the earlier frames. |
| EnergyIngest.Collect | assignment5/assignment5.py:28-76 | The loop stops at the first crashing file. Without a crash, the frames flatten to the kept rows in file order and the issues are the skipped files' issues in file order. |
| EnergyIngest.IngestCsvs | assignment5/assignment5.py:26-81 | The files are taken in name order, and a crash reports the first crashing file. Otherwise the result holds the issues in file order and a permutation of the kept rows, sorted by timestamp. |
| EnergyAggregate.BuildingsAreNames | assignment5/assignment5.py:107 | A building is a group key exactly when it is a name (not NaN) that labels some row: the group-by drops the NaN key. |
| EnergyAggregate.RowsOfNonEmpty | assignment5/assignment5.py:107 | Every group key has at least one row. |
| EnergyAggregate.StatsOf | assignment5/assignment5.py:107-113 | `samples` is the row count, `total_kwh` the sum of the readings, and `mean_kwh` the total over the count. |
| EnergyAggregate.StatsBounds | assignment5/assignment5.py:108-110 | `min_kwh` and `max_kwh` are readings of the group and bound all its readings, and `min_kwh <= mean_kwh <= max_kwh`. |
| EnergyAggregate.GroupStats | assignment5/assignment5.py:107-113 | The `agg` row of a building is computed from its non-empty group of rows. |
| EnergyAggregate.BuildingWiseSummary | assignment5/assignment5.py:104-113 | There is one row per group key, each that building's statistics. The summary is empty exactly when no row has a named building, an empty frame included. |
| EnergyAggregate.BuildingWiseSummaryRows | assignment5/assignment5.py:107-113 | Each building appears once and is a name, every named building of the frame appears, and each row holds the statistics of its own building. |
| EnergyAggregate.SummaryCoversNamedRows | assignment5/assignment5.py:107-113 | The buildings' `total_kwh` add up to the total of the rows with a named building, and their `samples` to the number of those rows. |
| EnergyAggregate.SummaryPartitionsFrame | assignment5/assignment5.py:104-113 | The campus total of line 203 is the buildings' `total_kwh` plus the readings labelled NaN, and the row count is their `samples` plus those rows. When every row is named, the buildings' totals and samples equal the campus total and the row count. |
| EnergyAggregate.Resample | assignment5/assignment5.py:94 | There is one period per occupied bucket, each period once, and every reading's bucket is present. Every period has at least one reading. The hourly resample of line 208 is the same function. |
| EnergyAggregate.ResampleKeepsTotal | assignment5/assignment5.py:94 | The period totals add up to the group's total: no reading is lost or counted twice. |
| EnergyAggregate.PeriodMeanBetween | assignment5/assignment5.py:100-101 | A period's `weekly_mean` (total over samples) lies between the minimum and the maximum of its readings. |
| EnergyAggregate.GroupResample | assignment5/assignment5.py:90-102 | The daily and weekly frames are empty on an empty frame, and on a frame whose every label is NaN. |
| EnergyAggregate.BuildingPeriodsSelect | assignment5/assignment5.py:94 | The rows of one building in the daily or weekly frame are exactly that building's own resample. |
| EnergyAggregate.BuildingPeriodsSumToTotal | assignment5/assignment5.py:94 | A building's daily (or weekly) totals add up to its `total_kwh`. |
| Search.ArgMax | assignment5/assignment5.py:204-209 | Stands for `sort_values(...).iloc[0]` and `idxmax`: the pick is an element of the sequence whose score no element exceeds. |
| EnergyAggregate.ComposeSummary | assignment5/assignment5.py:199-211 | The result is "No data available." exactly when no row has a named building: the empty frame, or the empty building summary. Otherwise it reports the campus total over all rows, a summary row whose `total_kwh` no building exceeds, and an hour whose total no hour exceeds. |
| EnergyAggregate.SummaryTopIsBuildingTotal | assignment5/assignment5.py:203-206 | The top building is a named building of the frame, and its total is the sum of its own readings. The campus total equals the sum of the buildings' totals plus the readings labelled NaN. |
| EnergyBuildings.Building.constructor | assignment5/assignment5.py:121-123 | A new building has its name and no readings. |
| EnergyBuildings.Building.AddReading | assignment5/assignment5.py:125-126 | The new reading goes at the end of the list. |
| EnergyBuildings.Building.TotalConsumption | assignment5/assignment5.py:136-138 | The total of a building with no readings is 0. That the total is the building's `total_kwh` in the summary is stated by `TotalConsumptionMatchesSummary`. |
| EnergyBuildings.BuildingManager.constructor | assignment5/assignment5.py:152-153 | A new manager has no buildings. |
| EnergyBuildings.BuildingManager.AddRow | assignment5/assignment5.py:156-160 | Adding one row creates the building on first sight of its label and appends the reading to its list. Every other list is unchanged, and existing buildings stay the same objects. |
| EnergyBuildings.BuildingManager.IngestDataframe | assignment5/assignment5.py:155-160 | Every label of the frame gets a list: the earlier list, if any, followed by the readings of that label's rows in row order. Old buildings stay the same objects, and new ones are fresh. |
| EnergyBuildings.ExpectedSnoc | assignment5/assignment5.py:156-160 | The lists for a frame plus one row are the lists for the frame with that row appended to its building's list. |
| EnergyBuildings.FreshManagerNames | assignment5/assignment5.py:158-159 | An empty manager fed a frame has exactly one building per distinct label, the NaN label counted once. |
| EnergyBuildings.NamedLabelRows | assignment5/assignment5.py:155-160 | For a named building, the rows the manager files under it are the rows of its group in the summary. |
| EnergyBuildings.FreshManagerMatchesSummary | assignment5/assignment5.py:155-160 | Each building of the summary, in an empty manager fed the frame, holds as many readings as `samples` counts for it, and they sum to its `total_kwh`. |
| EnergyBuildings.TotalConsumptionMatchesSummary | assignment5/assignment5.py:136-138 | `calculate_total_consumption` of such a building equals its `total_kwh` in the summary. |
| EnergyBuildings.ManagerCountsMatchRows | assignment5/assignment5.py:155-160 | A manager filled from a frame, starting empty, has one building per distinct label of the frame (the NaN label counted once), and the lengths of its reading lists add up to the number of rows. |

## Left out

- File and console I/O is not modelled:
  - `glob`;
  - `pd.read_csv`, including `on_bad_lines='skip'` (a read is given as a parsed table or as the exception text);
  - the issue log write at assignment5 lines 83-86;
  - `write_outputs`;
  - `save_books` and `load_books` JSON I/O;
  - the report and CSV writes of the weather script;
  - every `print` and `input`;
  - the `logging` calls: the configuration at assignment5 line 10, `logging.error` at line 35, and `logging.info` at line 247.
- The interactive menu loops of the library and gradebook scripts are not modelled. Only the rules they apply to the state are: issue, return, add and load.
- The manual-entry branch of the gradebook (`float(input(...))`) and the exit paths are left out because they are interaction.
- `pd.to_datetime`, `pd.to_numeric` and `float()` are abstract parse functions: whatever they accept is whatever the parameter accepts.
- `EnergyIngest.ParseRow`: the timestamp parser is one function of the cell. `pd.to_datetime` on a whole column infers one format from the first non-null cell, so in the code whether a row parses can depend on the file's first row. `pd.to_numeric` also accepts "inf", and an infinite reading survives `dropna`; the model's readings are reals, so a parser modelling that must reject it.
- `Gradebook.PassFailCount`: scores are reals, so NaN and infinity, which `float()` and `to_numeric` accept, are not modelled. In the code a NaN score fails both `s >= 40` and `s < 40`, so it is in neither list, and it gets grade F. The model's count identity holds for every real score.
- `EnergyAggregate.Resample`: the daily and weekly frames hold only the periods that have readings; this applies to `EnergyAggregate.GroupResample` and `EnergyAggregate.BuildingPeriodsSelect`. pandas also emits a row, with sum 0 and a NaN `weekly_mean`, for every empty period between a building's first and last reading. The sums per building are unaffected, since those rows add zero.
- `EnergyBuildings.BuildingManager.IngestDataframe`: all NaN-labelled rows are filed under one key, `Missing`. `iterrows` at lines 156-157 hands each row's NaN over as its own float object, and `name not in self.buildings` at line 158 matches NaN keys by identity. So the code may create one building per NaN row.
- `EnergyBuildings.FreshManagerNames`: its "one building per distinct label" counts the NaN label once. The code may have several buildings for NaN rows, as said for `IngestDataframe`. For named labels the claim is the code's.
- `EnergyBuildings.ManagerCountsMatchRows`: the same holds for its key set, since the NaN rows sit under one key. The lengths of the reading lists still add up to the number of rows in the code, because every row lands in exactly one list.
- `EnergyColumns.BuildingLabel`: labels are compared as cell text. `df[col].iloc[0]` at line 42 returns a typed value, so in the code a label column that `read_csv` types as int64 or float64 gives a number. The model does not tell such a label apart from text: the label 101 from a building column and the name "101" from a file stem are one group here but two in `groupby` and in the manager's dict. Nor does it merge numerically equal texts such as "1" and "1.0", which are one key in the code.
- `EnergyAggregate.GroupResample`: the model assumes that the daily sum at line 94 covers only `kwh`, as in pandas 1.x with a text building column. This also applies to `EnergyAggregate.BuildingPeriodsSelect` and `EnergyAggregate.BuildingPeriodsSumToTotal`. The source pins no pandas version. In pandas 2.0 to 2.3, `numeric_only` defaults to False and the grouping column is still included, so `.sum()` also sums `building`, and `.reset_index()` then raises `ValueError` ("cannot insert building, already exists") on any frame that has a named building. A numeric building column can fail the same way on older versions. The weekly aggregate at line 100 selects `kwh` only and is unaffected.
- `EnergyColumns.BuildingLabel`: the NA strings of `NaStrings` are pandas 1.x's defaults, matching the pandas 1.x daily sum assumed for `EnergyAggregate.GroupResample`. pandas 2.0 added "None" to the defaults, so under pandas 2.x a first label cell "None" is NaN, whereas the model reads it as the name "None".
- Floating-point rounding is not modelled: readings and scores are exact reals.
- The exact pandas resample anchoring ('D', 'W' ending on Sunday, 'H') is an abstract bucket function.
- `EnergyAggregate.ComposeSummary`: pandas also emits zero-filled rows for empty hours between occupied ones, and the model has only occupied hours. The reported peak therefore differs only when every occupied hour is negative.
- `EnergyAggregate.BuildingWiseSummary`: buildings come in first-occurrence order, whereas `groupby` sorts its keys. The statistics per building are the same; only the row order differs.
- `EnergyIngest.IngestCsvs`: the tie order among equal timestamps is not stated, because pandas' default sort is not stable.
- `EnergyAggregate.ComposeSummary`: the ties among top buildings and peak hours are not resolved the way `sort_values` and `idxmax` resolve them. The model states only that the pick is a maximum.
- `EnergyIngest.IngestCsvs`: all file outcomes are defined up front and the loop walks them. This is the same as deciding each file inside the loop, since a file's outcome depends only on that file.
- `Building.to_dataframe` appears only through `TotalConsumption`'s sum. `generate_report_text`, `generate_all_reports`, `plot_dashboard` and all matplotlib calls are formatting or plotting.
- `Text`: lower-casing is ASCII-only. Python's `str.lower` also folds non-ASCII letters.
- The `%.2f` formatting, `statistics.median`, `np.std`, the humidity mean fill, and the monthly, yearly and seasonal means of the weather script are left out as floating-point statistics.
- `datetime.utcnow()` in the summary header is left out because it is nondeterministic.
- `Book.__str__` and `display_all` are only printing.
- `assignment1/assignment1.py` (an interactive sum and average) is not part of this model.
- `Gradebook.CalcAvg`, `Gradebook.MaxScore` and `Gradebook.MinScore`: these require non-empty marks, because the script divides by zero or calls `max`/`min` on an empty sequence there.
