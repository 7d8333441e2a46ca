# Loan ETL transform and grade summary, in Dafny

This project models the transform stage of a loan-record ETL job, and the
grouped summary query that runs on the job's output.

**The pandas job.** `run_etl` in `scripts/etl_pipeline_pandas.py` works as follows:

- It selects thirteen columns.
- It coerces `loan_amnt`, `annual_inc` and `dti` to numbers. A failed parse becomes null.
- It removes every `%` from `int_rate` and casts the rest to float. A failed cast aborts the run.
- It parses `issue_d` as `Mon-YYYY`. A failed parse becomes null.
- It reads the first run of digits of `term` into `term_months`. A term with no digits aborts the run.
- It maps `emp_length` to `emp_years` with the nested `clean_emp_length`.
- It drops `term` and `emp_length`, then drops the rows whose `loan_status` is null.

The frame is a class, `PandasFrame.DataFrame`:

- Its fields are the column labels, a map from label to a typed column, and the row count.
- Each column assignment of the script is a method that updates the frame in place.
- `drop` and `dropna` return new frames.
- `PandasFrame.RunEtl` is proved to produce exactly the columns of a row-level specification, `PandasRules.Transform`: map every row, then filter.

**The Spark job.** `run_etl` in `scripts/etl_pipeline.py` is one chained expression. It is modelled as pure functions (`SparkEtl`).

- Spark's casts to int, to double and to date are parameters. The model does not define them.
- Lemmas compare the two jobs:
  - on the sample values written by `scripts/create_sample_data.py`;
  - on digitless text;
  - on which rows survive, given one input table for both jobs.

**The summary query.** The DuckDB query in `analyze_data` (`scripts/analyze.py`) is `SELECT grade, COUNT(*), AVG(loan_amnt), AVG(int_rate) ... GROUP BY grade ORDER BY grade`.

- It is modelled as `GradeSummary.Summarize`, a fold of the rows into a grade-sorted list of accumulators.
- That fold is proved equal, group by group, to a reference definition: take the group's rows, drop the nulls, average.
- The reference follows the aggregate rules of ISO/IEC 9075-2, section 10.9 (`<aggregate function>`):
  - COUNT(*) counts every row of the group;
  - AVG eliminates nulls first;
  - AVG is null over an empty set of values.

Files:

- `wrappers.dfy`: Option and Result.
- `text.dfy`: ASCII digit runs, decimal values and literal removal.
- `loans.dfy`: the row records, column labels, schemas and the CSV table.
- `pandas_rules.dfy`: the per-cell rules and the row-level transform.
- `pandas_frame.dfy`: the frame class and the imperative `run_etl`.
- `spark.dfy`: the Spark job.
- `summary.dfy`: the grade summary query.

Behaviour of the code that the model keeps:

- `int_rate` has every `%` removed, not only a trailing one.
- A non-numeric `int_rate` aborts the pandas run (`astype(float)`). It does not become null.
- `emp_years` is not bounded by 10. `"15 years"` gives 15 (`PandasRules.EmpLengthBeyondTen`).
- A `term` without digits, or a missing `term`, aborts the pandas run (`astype(int)` on a missing value). In Spark it becomes null.
- Empty strings are not nulls. The CSV reader's mapping of empty cells to missing values happens before the model, in the `Option` cells of the input table.

Conventions pinned where the source leaves them to the engine:

- A null grade forms one group and is ordered after every present grade. This is DuckDB's default `NULLS LAST`.
- Grades compare code point by code point, which is DuckDB's binary collation.

## Model

| member | source | states |
|---|---|---|
| Text.FirstDigitRun | scripts/etl_pipeline_pandas.py:57 | the search for `\d+` finds nothing exactly when the text has no ASCII digit; otherwise it captures a non-empty run of digits |
| Text.FirstDigitRunIsMaximal | scripts/etl_pipeline_pandas.py:57 | the captured run starts at the first digit, has no digit before it, and is followed by a non-digit or the end of the text |
| Text.FirstDigitRunAround | scripts/etl_pipeline_pandas.py:57 | for any digit-free prefix u, digit run d and tail not starting with a digit, the search on u+d+t captures exactly d |
| Text.DecimalRoundTrip | scripts/etl_pipeline_pandas.py:59 | `int()` of the decimal text of n is n |
| Text.RemoveCharSplits | scripts/etl_pipeline_pandas.py:40 | removing a character distributes over concatenation |
| Text.RemoveCharGone | scripts/etl_pipeline_pandas.py:40 | after `replace('%', '')` no `%` is left |
| Text.RemoveAll | scripts/etl_pipeline.py:41 | `regexp_replace` with a literal pattern never lengthens the text and never introduces a character |
| Text.RemoveAllAbsent | scripts/etl_pipeline.py:41 | `regexp_replace` leaves text that never starts the pattern unchanged |
| Text.RemoveAllAfterDigits | scripts/etl_pipeline.py:43 | a leading run of digits survives the removal of " months" |
| Loans.Missing | scripts/etl_pipeline_pandas.py:29 | exactly the wanted columns absent from the header |
| Loans.MissingInOrder | scripts/etl_pipeline_pandas.py:29 | the missing columns come in the order they are wanted, each once when the wanted ones are distinct |
| Loans.SchemasDistinct | scripts/etl_pipeline_pandas.py:24-28 | no column is selected twice, and no output column appears twice |
| Loans.OutputSchema | scripts/etl_pipeline_pandas.py:65 | the output columns are the selected ones less `term` and `emp_length`, followed by `term_months` and `emp_years` |
| Loans.WithStatus | scripts/etl_pipeline_pandas.py:68 | keeps as many rows as the input has less those with a null `loan_status`; every kept row has a status and comes from the input |
| PandasRules.PercentSignsIgnored | scripts/etl_pipeline_pandas.py:40 | a `%` anywhere in `int_rate` does not change what is cast, and none reaches the cast |
| PandasRules.PercentFixture | scripts/etl_pipeline_pandas.py:40 | "12.5%" and "12.5" cast alike: both succeed or both raise, with the same value |
| PandasRules.MonthFrom | scripts/etl_pipeline_pandas.py:43 | a found month number is the index of its abbreviation; when none is found no abbreviation matches |
| PandasRules.ParseMonthYear | scripts/etl_pipeline_pandas.py:43 | a date parses exactly when it is a three-letter month abbreviation (any case), a dash and four digits with year at least 1; the result is that month and year |
| PandasRules.IssueDateFixture | scripts/create_sample_data.py:28 | every sample date "Mon-YYYY" parses to its month and year, in the sample spelling and in lower case |
| PandasRules.ExtractTermMonths | scripts/etl_pipeline_pandas.py:46 | `term_months` is present exactly when the term is present and holds an ASCII digit |
| PandasRules.TermFirstRun | scripts/etl_pipeline_pandas.py:46 | `term_months` is the value of the first maximal digit run, whatever text surrounds it |
| PandasRules.TermOfMonths | scripts/etl_pipeline_pandas.py:46 | " n months" gives n |
| PandasRules.TermFixture | scripts/create_sample_data.py:21 | the sample terms " 36 months" and " 60 months" give 36 and 60 |
| PandasRules.CleanEmpLength | scripts/etl_pipeline_pandas.py:49-60 | a null, or a text without any digit, gives 0 |
| PandasRules.EmpLengthFixedCases | scripts/etl_pipeline_pandas.py:50-55 | null gives 0; "< 1 year" gives 0 although its first digit run is "1"; "10+ years" gives 10 |
| PandasRules.EmpLengthFirstRun | scripts/etl_pipeline_pandas.py:57-59 | outside the two fixed strings the result is the value of the first maximal digit run |
| PandasRules.EmpLengthOfYears | scripts/etl_pipeline_pandas.py:57-59 | "n year" and "n years" give n |
| PandasRules.NotFixedCase | scripts/etl_pipeline_pandas.py:52-55 | "n year(s)" is never one of the two fixed strings |
| PandasRules.EmpLengthWithoutDigits | scripts/etl_pipeline_pandas.py:60 | text without digits gives 0 |
| PandasRules.EmpLengthBeyondTen | scripts/etl_pipeline_pandas.py:57-59 | "15 years" gives 15: the value is not capped at 10 |
| PandasRules.EmpLengthSamplesClean | scripts/create_sample_data.py:24 | the k-th sample employment length gives k, from "< 1 year" (0) to "10+ years" (10) |
| PandasRules.CleanRow | scripts/etl_pipeline_pandas.py:35-62 | one row through the seven cell rules, defined only for a row whose `int_rate` and `term` convert; what it computes is stated by FieldsIndependent and the per-column lemmas |
| PandasRules.FieldsIndependent | scripts/etl_pipeline_pandas.py:35-62 | each output field of a row depends only on its own source column |
| PandasRules.DropNullStatusOfClean | scripts/etl_pipeline_pandas.py:68 | filtering after cleaning equals cleaning the rows that have a `loan_status` |
| PandasRules.FilterLaw | scripts/etl_pipeline_pandas.py:68 | a successful run returns exactly the cleaned rows with a `loan_status`, in input order; its length is the input length less the null-status rows; every row with a status is in it |
| PandasRules.StatusKept | scripts/etl_pipeline_pandas.py:68 | `dropna` on `loan_status` keeps every row that has one |
| PandasRules.KeptRowPresent | scripts/etl_pipeline_pandas.py:68 | no row with a `loan_status` is dropped |
| PandasRules.DropNullStatus | scripts/etl_pipeline_pandas.py:68 | every kept row has a `loan_status` and comes from the input; no row is added |
| PandasRules.CleanRows | scripts/etl_pipeline_pandas.py:35-68 | succeeds exactly when every row converts; the error is the `int_rate` or the `term` error; on success at most the input rows, each with a `loan_status` |
| PandasRules.Transform | scripts/etl_pipeline_pandas.py:23-68 | fails with the missing-columns error exactly when a selected column is missing; succeeds exactly when none is missing and every row converts; on success at most as many rows as the table |
| PandasRules.DroppedRowStillCast | scripts/etl_pipeline_pandas.py:46 | a digitless term aborts the run even in a row the status filter would drop, because the casts run first |
| PandasRules.NumericFailureKeepsRow | scripts/etl_pipeline_pandas.py:35-37 | a `loan_amnt` that does not parse leaves its row in the output, with a null there |
| PandasFrame.DataFrame.constructor | scripts/etl_pipeline_pandas.py:29 | a frame with the given labels, columns and height, all columns of that height |
| PandasFrame.DataFrame.Assign | scripts/etl_pipeline_pandas.py:35 | `df[name] = values` replaces that column, or appends it at the end; no other column and not the height changes |
| PandasFrame.DataFrame.Drop | scripts/etl_pipeline_pandas.py:65 | a new frame without the dropped labels, the others in order and unchanged |
| PandasFrame.DataFrame.DropNa | scripts/etl_pipeline_pandas.py:68 | a new frame keeping, in every column, the rows where the named column is not null |
| PandasFrame.SelectColumns | scripts/etl_pipeline_pandas.py:29 | fails exactly when a selected column is missing, naming those columns; otherwise a frame of exactly the selected text columns |
| PandasFrame.ConvertNumeric | scripts/etl_pipeline_pandas.py:35-37 | replaces one column by its coerced numbers and changes nothing else |
| PandasFrame.CleanIntRate | scripts/etl_pipeline_pandas.py:40 | reports the error when a cell does not cast, leaving the frame unchanged; otherwise replaces `int_rate` by the cast values |
| PandasFrame.ParseIssueDate | scripts/etl_pipeline_pandas.py:43 | replaces `issue_d` by the parsed dates and changes nothing else |
| PandasFrame.ExtractTerm | scripts/etl_pipeline_pandas.py:46 | reports the error when a term has no digits; otherwise appends `term_months` |
| PandasFrame.AddEmpYears | scripts/etl_pipeline_pandas.py:62 | appends `emp_years`, the cleaned `emp_length` of every row |
| PandasFrame.CastColumns | scripts/etl_pipeline_pandas.py:35-62 | the int_rate error wins over the term error; on success the frame holds the selected columns, then `term_months` and `emp_years`, with the cast columns in place |
| PandasFrame.CastErrors | scripts/etl_pipeline_pandas.py:40-46 | the `int_rate` column cast fails exactly when some row's `int_rate` fails; the `term` column fails exactly when some row's term has no digits |
| PandasFrame.NumericCleaned | scripts/etl_pipeline_pandas.py:35-43 | the coerced numeric and date columns are the corresponding fields of the cleaned rows |
| PandasFrame.DerivedCleaned | scripts/etl_pipeline_pandas.py:40-62 | the `int_rate`, `term_months` and `emp_years` columns are the corresponding fields of the cleaned rows |
| PandasFrame.PassedThrough | scripts/etl_pipeline_pandas.py:29 | the text columns pass through as the fields of the cleaned rows |
| PandasFrame.MaskedColumn | scripts/etl_pipeline_pandas.py:68 | masking a column by the status mask gives that column of the filtered rows |
| PandasFrame.StatusFilter | scripts/etl_pipeline_pandas.py:68 | `dropna` on `loan_status` keeps as many rows as the filtered rows, and every column equals the column of the filtered rows |
| PandasFrame.AssembledColumns | scripts/etl_pipeline_pandas.py:65 | after the assignments and the drop, the frame's columns are exactly the columns of the cleaned rows |
| PandasFrame.IntRateFailure | scripts/etl_pipeline_pandas.py:40 | a failing `int_rate` column means the row transform fails with the int_rate error |
| PandasFrame.TermFailure | scripts/etl_pipeline_pandas.py:46 | a failing `term` column, after a good `int_rate`, means the transform fails with the term error |
| PandasFrame.CastsSucceed | scripts/etl_pipeline_pandas.py:40-46 | when both casts succeed, every row converts and the transform returns the filtered cleaned rows |
| PandasFrame.RunEtl | scripts/etl_pipeline_pandas.py:23-68 | the run fails exactly when the row-level transform fails, with the same error; otherwise a new frame whose labels are the output schema, whose height is the number of surviving rows and whose columns are the columns of the transformed rows |
| SparkEtl.SparkIntRate | scripts/etl_pipeline.py:41 | null stays null; text without `%` goes to the cast unchanged |
| SparkEtl.SparkTermMonths | scripts/etl_pipeline.py:43 | null stays null; text without a blank goes to the cast unchanged |
| SparkEtl.SparkEmpYears | scripts/etl_pipeline.py:44-48 | null gives 0; a null result comes only from the cast, never from the two literal branches |
| SparkEtl.RemoveYearWords | scripts/etl_pipeline.py:48 | removing " years?" never lengthens the text and introduces no character |
| SparkEtl.SparkEmpYearsChain | scripts/etl_pipeline.py:44-48 | null gives 0, "< 1 year" gives 0, "10+ years" gives 10, and any other text goes to the cast with " year"/" years" removed |
| SparkEtl.LessThanOneYearShortcut | scripts/etl_pipeline.py:46-48 | the "< 1 year" branch matters: the fallback would have cast "< 1" |
| SparkEtl.YearWordsAfterDigits | scripts/etl_pipeline.py:48 | removing " years?" from "n year(s)" leaves the digits of n |
| SparkEtl.SparkEmpOfYears | scripts/etl_pipeline.py:48 | with a cast that reads the decimal text of every 32-bit integer value, "n year(s)" gives n for n up to 2147483647 |
| SparkEtl.SparkTermOfMonths | scripts/etl_pipeline.py:43 | with a cast that reads the decimal text of every 32-bit integer value, " n months" gives n for n up to 2147483647 |
| SparkEtl.SparkRows | scripts/etl_pipeline.py:37-49 | one output row per input row, with the same `loan_status` and `grade` |
| SparkEtl.KeepWithStatus | scripts/etl_pipeline.py:53 | every kept row has a `loan_status` and comes from the input |
| SparkEtl.SparkTransform | scripts/etl_pipeline.py:34 | the job fails exactly when a selected column is missing; no cast aborts it |
| SparkEtl.KeepWithStatusOfRows | scripts/etl_pipeline.py:52-53 | filtering the cleaned rows equals cleaning the rows that have a `loan_status` |
| SparkEtl.SparkFilterLaw | scripts/etl_pipeline.py:52-53 | the output is the cleaned rows with a `loan_status`, in order; its length is the input length less the null-status rows; every output row has a status |
| SparkEtl.TermFixtureAgrees | scripts/create_sample_data.py:21 | on both sample terms the two jobs agree, giving 36 and 60 |
| SparkEtl.EmpLengthFixtureAgrees | scripts/create_sample_data.py:24 | on every sample employment length the two jobs agree, giving k for the k-th sample |
| SparkEtl.DigitlessVariantsDiffer | scripts/etl_pipeline.py:43-48 | on digitless text pandas gives `emp_years` 0 where Spark gives null, and both have no `term_months` |
| SparkEtl.RemovalKeepsDigitless | scripts/etl_pipeline.py:43-48 | the literal removals never create a digit |
| SparkEtl.IntRateVariants | scripts/etl_pipeline.py:41 | with the same float reader, Spark's `int_rate` equals the pandas value where pandas succeeds, and is null where pandas aborts |
| SparkEtl.SameSurvivors | scripts/etl_pipeline.py:29-53 | when the pandas run succeeds, the Spark job succeeds too, with as many rows and the same text fields row by row |
| GradeSummary.GradeOrder | scripts/analyze.py:30 | the ordering of grades is irreflexive, transitive and total |
| GradeSummary.GroupRows | scripts/analyze.py:29 | a group holds exactly the input rows with that grade |
| GradeSummary.ReferenceRow | scripts/analyze.py:24-30 | the row for grade g reports g, and its count is 0 exactly when g does not occur in the input |
| GradeSummary.Mean | scripts/analyze.py:26-27 | an average is null exactly when there are no values |
| GradeSummary.AddTo | scripts/analyze.py:25-27 | folding a row counts it once and counts a measure only when it is present |
| GradeSummary.InsertKeys | scripts/analyze.py:29 | folding a row adds its grade to the groups and no other |
| GradeSummary.InsertSorted | scripts/analyze.py:30 | folding a row keeps the groups strictly ascending by grade |
| GradeSummary.InsertAgrees | scripts/analyze.py:25-29 | folding a row keeps every group equal to the reference for its grade |
| GradeSummary.AccumulateAgrees | scripts/analyze.py:24-30 | the groups are strictly ascending, have exactly the input's grades, and each equals the reference count, sums and value counts for its grade |
| GradeSummary.Summarize | scripts/analyze.py:22-31 | one row per accumulated group, no more rows than input rows, no rows exactly for no input, and every reported group counts at least one loan |
| GradeSummary.SummarizeCorrect | scripts/analyze.py:24-30 | the result is strictly ascending by grade; it has a row for a grade exactly when the grade occurs in the input; each row equals COUNT(*), and AVG with nulls eliminated, of its group |
| GradeSummary.SummarizeDistinct | scripts/analyze.py:29-30 | no grade is reported twice |
| GradeSummary.SummarizeTotal | scripts/analyze.py:25 | the counts sum to the number of input rows, nulls included |
| GradeSummary.PipelineTotal | scripts/analyze.py:25 | over the pandas output the counts sum to the input rows less those with a null `loan_status` |
| GradeSummary.ThreeLoanExample | scripts/analyze.py:24-30 | grades A, A, B with amounts 10000, 20000, 5000 and rates 10, 20, 5 give A: 2, 15000, 15 then B: 1, 5000, 5 |
| GradeSummary.NullAmountSkipped | scripts/analyze.py:26 | a group with a null amount and an amount of 100 counts 2 loans and averages 100, not 50 |
| GradeSummary.NullGradeLast | scripts/analyze.py:30 | when some grade is null, the last summary row is the null group |

## Left out

- Reading the CSV file, writing Parquet, the DuckDB connection, the SparkSession and all printing are left out. The model starts from a table of optional text cells and ends with rows or a frame.
- `read_csv` dtype inference is not modelled. Every cell is text, and the number readers decide what a cell means.
- PandasRules.Transform, PandasFrame.RunEtl: a column that `read_csv` reads as numbers is not a text column, so the real run raises `AttributeError` at `.str.replace` (line 40) when `int_rate` is entirely missing or entirely numeric, and at `.str.extract` (line 46) when `term` is. The model returns a result in those cases.
- PandasRules.PercentFixture: the "12.5" case holds only inside a text column, one with at least one non-numeric `int_rate` such as "12.5%".
- Float parsing is abstract. `pd.to_numeric`, `astype(float)` and Spark's double cast are function parameters returning an optional real. Textual NaN and infinity are not represented.
- Averages are exact real division. IEEE rounding is not modelled.
- Spark's integer cast is a parameter with no fixed meaning. Its whitespace handling is not visible in the source.
- Spark's `IntegerType` is 32-bit. The model's integers are unbounded; `ReadsDecimal` asks only for the values 0 to 2147483647, and text of a larger value is not modelled (Spark gives null, or raises in ANSI mode).
- SparkEtl.SparkTransform, SparkEtl.SameSurvivors: assume non-ANSI casts, where a cast that fails gives null. With ANSI mode on, the default since Spark 4.0, such a cast raises and the job aborts; the model does not capture that.
- SparkEtl.SparkEmpOfYears, SparkEtl.SparkTermOfMonths, SparkEtl.TermFixtureAgrees and SparkEtl.EmpLengthFixtureAgrees hold only for a cast that reads the decimal text of every value from 0 to 2147483647 (`ReadsDecimal`), and SparkEmpOfYears and SparkTermOfMonths only for n in that range. They are weaker than a statement about Spark's actual cast, because that cast is not modelled.
- SparkEtl.SameSurvivors: assumes both CSV readers map every cell to the same optional text. They do not always: pandas' `read_csv` turns its default NA strings ("NA", "N/A", "n/a", "NULL", "null", "NaN", "nan", "None" and others) into missing values, while Spark's reader nulls only the empty field and keeps those strings as text. A row whose `loan_status` is "NA" is dropped by the pandas job and kept by the Spark job.
- SparkEtl.DigitlessVariantsDiffer holds only for a cast that rejects text without digits (`RejectsDigitless`), for the same reason.
- Spark's `to_date` is a parameter. The pandas date parser is concrete but has no timestamp range: years outside pandas' nanosecond range are accepted.
- Python's `\d` also matches non-ASCII digits. Only ASCII digits are modelled.
- `astype(int)` on a very long digit run would overflow int64. Integers are unbounded here.
- Spark's error for a missing column (an analysis exception) is modelled as the same `MissingColumns` error as the pandas run.
- The export functions `export_to_csv` and `export_full_data_to_csv` are left out. They are verbatim dumps.
- `scripts/export_to_csv.py`, `setup.py` and the random generator in `scripts/create_sample_data.py` are not part of this model. Only the generator's value lists are used, as sample inputs.
- Where nulls sort in `ORDER BY` is engine-defined. It is pinned to last.
