# Airline delay cleaning pipeline — a Dafny model

This project models the cleaning script `src/cleaning_pipeline.py` of the
airport operations analytics repository and proves properties of it. The
script loads the monthly airline delay CSV into a pandas data frame and then
works through these steps:

1. It renames every header with `to_snake`.
2. It coerces the fifteen count and delay-minute columns to numbers, with 0 for missing or unparseable values.
3. It casts `year` and `month` to nullable Int64.
4. It derives the `year_month` date and the `"YYYY-MM"` key.
5. It adds three rates with `safe_div`: the delayed rate, the cancellation rate and the average delay per delayed flight.
6. It adds ten cause shares: five count-based and five minute-based.
7. It flags the rows whose five cause counts add up to more than `arr_del15`, and counts them in the `checks` dictionary.

The model is organised as follows:

- `wrappers.dfy` defines `Option`.
- `snake_case.dfy` defines `to_snake` as a chain of string functions, with lemmas about them.
- `safe_division.dfy` defines `safe_div` on one value.
- `period.dfy` defines the period key and the parser that reads it back.
- `columns.dfy` defines cells, rows and tables. It also holds the column names the script knows, the cell conversions and column assignment.
- `steps.dfy` defines each step as a function from the table before the step to the table after it. The step's promises are proved beside it.
- `pipeline.dfy` composes the steps into one run, `Clean`. It also proves what a whole run guarantees.
- `cleaning.dfy` defines the class `Frame`. Its fields are the frame's headers, its rows and the `checks` dictionary. Each step is a method that updates these fields in place. Each method is proved to leave exactly the table its step function describes.

A table is the ordered list of its column names plus its rows. Each row maps
every column name to a cell. Assigning a column overwrites it in place if it
exists, and otherwise appends it as the last column.

Two places in the script raise an exception and stop it:

- `astype("Int64")` at line 73, on a number with a fractional part or a whole number outside the Int64 range [-2^63, 2^63).
- `astype("int")` at line 82, on a missing year or month.

The model returns `None` (or `false` from a method) in both places.

Where a reader might expect otherwise, the model follows the code:

- A month outside 1..12 does not drop its row. The row keeps a missing date and a missing key.
- A zero denominator gives NaN (a missing cell), not 0.
- The per-row cancellation rate divides by flights + cancelled + diverted.
- Negative numbers pass through coercion unchanged.
- The script has no aggregation stage, so none is modelled.

## Model

| member | source | states |
|---|---|---|
| SnakeCase.SnakeHeadersCharset | src/cleaning_pipeline.py:48 | one converted header per original header, each made only of lower-case letters, digits and '_' |
| SnakeCase.ToSnakeCharset | src/cleaning_pipeline.py:25-30 | every character of `to_snake(s)` is a lower-case letter, a digit or '_' |
| SnakeCase.ToSnakeEmptyIff | src/cleaning_pipeline.py:25-30 | the result is empty exactly when the stripped header consists only of ' ', '/', '-' and '.' (any other character survives as a letter, a digit or '_') |
| SnakeCase.ToSnakeOfSeparatorsIsEmpty | src/cleaning_pipeline.py:25-30 | a header made only of separators or only of whitespace becomes the empty name |
| SnakeCase.ToSnakeOfSnake | src/cleaning_pipeline.py:25-30 | on a name already in snake-case characters (the empty name included), `to_snake` only shortens runs of underscores (`replace("__", "_")`) |
| SnakeCase.ToSnakeTwice | src/cleaning_pipeline.py:25-30 | applying `to_snake` a second time only collapses underscore pairs once more |
| SnakeCase.ToSnakeNotIdempotent | src/cleaning_pipeline.py:29 | "a___b" becomes "a__b", which a second pass turns into "a_b", so `to_snake` is not idempotent |
| SnakeCase.ToSnakeLetterRun | src/cleaning_pipeline.py:29 | for any two lower-case letters or digits x and y, x, a run of n underscores and y keep x and y and shorten the run to ceil(n / 2) underscores |
| SnakeCase.CollapseRun | src/cleaning_pipeline.py:29 | `replace("__", "_")` turns a maximal run of n underscores into ceil(n / 2) underscores and goes on after it |
| SnakeCase.CollapseOther | src/cleaning_pipeline.py:29 | `replace("__", "_")` copies any character other than '_' unchanged and goes on after it |
| SnakeCase.CollapseWithoutUnderscore | src/cleaning_pipeline.py:29 | `replace("__", "_")` leaves a string without '_' unchanged |
| SnakeCase.CollapseKeepsChars | src/cleaning_pipeline.py:29 | `replace("__", "_")` introduces no character that was not in its input |
| SnakeCase.ToSnakeTwoWords | src/cleaning_pipeline.py:25-30 | two lower-case alphanumeric words joined by a space, '/', '-' or '.' become the words joined by '_' |
| SnakeCase.ToSnakeIgnoresCase | src/cleaning_pipeline.py:25-30 | lower-casing a header first does not change its snake-case form |
| SnakeCase.ToSnakeSpacedExample | src/cleaning_pipeline.py:25-30 | "Arr Flights" becomes "arr_flights" |
| SnakeCase.ToSnakeHyphenExample | src/cleaning_pipeline.py:25-30 | "arr-flights" becomes "arr_flights" |
| SafeDivision.SafeDiv | src/cleaning_pipeline.py:32-37 | the quotient is NaN exactly when the denominator is 0; otherwise it times the denominator gives the numerator |
| SafeDivision.SafeDivUnique | src/cleaning_pipeline.py:32-37 | any q with q * den == num for a non-zero den is the quotient `safe_div` returns |
| SafeDivision.PartOfWholeInUnit | src/cleaning_pipeline.py:32-37 | a part of a whole, both non-negative, divides to a value in [0, 1] |
| SafeDivision.CancellationRateInUnit | src/cleaning_pipeline.py:93-95 | with non-negative counts the cancellation rate is NaN only when flights, cancellations and diversions are all 0, and otherwise lies in [0, 1] |
| SafeDivision.CancellationRateAllCancelled | src/cleaning_pipeline.py:93-95 | with no completed or diverted flights and some cancellations, the cancellation rate is exactly 1 |
| Period.YearMonthKeyDefined | src/cleaning_pipeline.py:80-86 | the key is present exactly when the month is 1..12 and its first day is a representable Timestamp; every valid month of 1678..2261 has a key |
| Period.YearMonthKeyRoundTrip | src/cleaning_pipeline.py:86 | a present key has seven characters with '-' at position 4, and reads back as the row's own year and month |
| Period.MonthStartMatchesKey | src/cleaning_pipeline.py:81-86 | the parsed month-start date is present exactly when the key is; it is the first day of the row's own year and month, and the key reads back as it |
| Period.FourDigits | src/cleaning_pipeline.py:86 | the four digits `%Y` writes give back the year |
| Period.YearMonthKeyInjective | src/cleaning_pipeline.py:86 | different months never share a key |
| Columns.PeriodNamesNotMeasures | src/cleaning_pipeline.py:55-62 | year, month, year_month and year_month_key are not among the fifteen measure columns |
| Columns.KpiNamesNotMeasures | src/cleaning_pipeline.py:88-122 | the three rate columns and the flag column are not measure columns |
| Columns.ShareNamesNotMeasures | src/cleaning_pipeline.py:101-111 | no cause-share column is a measure column |
| Columns.CauseColumnsAreMeasures | src/cleaning_pipeline.py:102-110 | each cause's `_ct` and `_delay` column is one of the listed count and delay-minute columns |
| Columns.ToNumeric | src/cleaning_pipeline.py:68 | a cell reads as a number exactly when it holds a float, an Int64 integer or a bool; the reading of a float is the float itself |
| Columns.Coerce | src/cleaning_pipeline.py:68 | every coerced cell is a float holding the cell's numeric reading, or 0 for a missing or unparseable cell; a float cell, negative ones included, is left unchanged, and any other cell is replaced by a float (bool cells are read as 1 and 0, see Left out) |
| Columns.CoerceIdempotent | src/cleaning_pipeline.py:68 | coercing an already coerced cell changes nothing |
| Columns.ToInt64 | src/cleaning_pipeline.py:73 | the Int64 cast raises exactly on a number that has a fractional part or lies outside [-2^63, 2^63); a cast integer has the number's value, a missing or unparseable cell becomes <NA>, and a cell that already is an Int64 integer casts to itself |
| Columns.ToInt64Range | src/cleaning_pipeline.py:73 | at the edges of the range: 2^63 and 10^19 raise, -2^63 and 2^63 - 1 cast to themselves, 2.5 raises |
| Columns.ToInt64Idempotent | src/cleaning_pipeline.py:73 | casting an already cast cell to Int64 again gives the same cell: a column that was cast before casts to itself |
| Columns.PeriodCells | src/cleaning_pipeline.py:81-86 | `astype("int")` raises unless both year and month are integers; the date is present exactly when the key is; the key is the "YYYY-MM" key of the row's year and month |
| Columns.Ratio | src/cleaning_pipeline.py:37 | a ratio cell is missing exactly when the denominator is 0, and otherwise is a number |
| Columns.SetColumn | src/cleaning_pipeline.py:68 | `df[name] = values` keeps every row; an existing column stays in place and a new one goes last; the column holds the values, and every other cell is unchanged |
| Columns.SetColumnKeepsNumeric | src/cleaning_pipeline.py:68 | assigning one column keeps another column numeric |
| Steps.RenameRow | src/cleaning_pipeline.py:48 | a renamed row has exactly the new names, and each cell moves from its old name to the new name at the same position |
| Steps.Standardize | src/cleaning_pipeline.py:48 | the headers become their snake-case forms; no row is added or dropped, and every cell keeps its row and position |
| Steps.StandardizedNamesAreSnake | src/cleaning_pipeline.py:48 | after standardisation every header uses only lower-case letters, digits and '_' |
| Steps.CoerceColumn | src/cleaning_pipeline.py:67-68 | coercing one column keeps the header and the number of rows |
| Steps.CoerceColumns | src/cleaning_pipeline.py:66-68 | the coercion loop keeps the header and the number of rows |
| Steps.CoerceColumnsSpec | src/cleaning_pipeline.py:64-68 | each listed column the table has is coerced cell by cell; every other cell is unchanged |
| Steps.CoerceColumnsKeepsOthers | src/cleaning_pipeline.py:66-68 | the coercion loop keeps every column and changes no cell outside the listed columns |
| Steps.CoercedMeasuresNumeric | src/cleaning_pipeline.py:66-68 | after the loop every measure column the table has holds numbers only |
| Steps.CoercedColumnsNumeric | src/cleaning_pipeline.py:66-68 | after coercing any list of columns, each of them the table has holds numbers only |
| Steps.CastColumn | src/cleaning_pipeline.py:72-73 | a successful cast keeps the header and the rows |
| Steps.CastPeriodFields | src/cleaning_pipeline.py:71-73 | a successful cast loop keeps the header and the rows |
| Steps.CastFailureStays | src/cleaning_pipeline.py:71-73 | once a cast raises, the loop as a whole fails |
| Steps.CastPeriodFieldsSpec | src/cleaning_pipeline.py:70-73 | the casts fail exactly when a year or month cell is a number with a fractional part or outside the Int64 range; otherwise those cells become their Int64 cast and no other cell changes |
| Steps.CastPeriodFieldsCells | src/cleaning_pipeline.py:71-73 | after successful casts each year and month cell is the Int64 cast of its old value, and no other column or cell changes |
| Steps.CastPeriodFieldsSameMeasures | src/cleaning_pipeline.py:70-73 | casting year and month changes no measure column |
| Steps.AddPeriod | src/cleaning_pipeline.py:80-86 | a successful period step keeps every row and every column, and changes no cell outside year_month and year_month_key |
| Steps.AddPeriodFailsIff | src/cleaning_pipeline.py:80-83 | the period step raises exactly when the table has year and month and some row lacks an integer year or month |
| Steps.AddPeriodSpec | src/cleaning_pipeline.py:80-86 | each row gets its own "YYYY-MM" key and month-start date, both missing for an invalid month (the row is kept); all other columns are unchanged |
| Steps.AddPeriodSameMeasures | src/cleaning_pipeline.py:80-86 | the period step changes no measure column |
| Steps.RatioColumn | src/cleaning_pipeline.py:89-90 | with both inputs present, the output column holds each row's `safe_div`; otherwise the table is unchanged; no other column changes |
| Steps.RatioCellSpec | src/cleaning_pipeline.py:89-111 | a row's ratio is missing exactly when its denominator is 0, and otherwise times the denominator gives the numerator |
| Steps.CancellationColumn | src/cleaning_pipeline.py:93-95 | with all three inputs present, each row gets cancelled / (flights + cancelled + diverted); no other column changes |
| Steps.CancellationCellInUnit | src/cleaning_pipeline.py:93-95 | for non-negative counts a row's cancellation rate is missing only when all three counts are 0, and otherwise lies in [0, 1] |
| Steps.RateInputsNumeric | src/cleaning_pipeline.py:88-99 | the columns the rates read are numeric after coercion |
| Steps.AddRates | src/cleaning_pipeline.py:88-99 | delayed_rate, cancellation_rate and avg_delay_min_per_delayed_flight hold the row-by-row quotients of the original counts wherever their inputs exist; measure columns are unchanged; every column is kept, and every cell outside the three rate columns is unchanged |
| Steps.ThreeRatesSteps | src/cleaning_pipeline.py:88-99 | for any three distinct output columns that are not inputs, each rate column survives the later assignments and each rate reads inputs that the earlier assignments did not change |
| Steps.ThreeRatesKeepOthers | src/cleaning_pipeline.py:88-99 | the three rate assignments keep every column and change no cell outside their three outputs |
| Steps.CauseShareNames | src/cleaning_pipeline.py:101-111 | the share loops read measure columns and write ten distinct non-measure columns |
| Steps.ShareColumns | src/cleaning_pipeline.py:102-111 | after k iterations each of the first k shares whose inputs exist holds part / whole row by row; only share columns change |
| Steps.ShareColumnsNext | src/cleaning_pipeline.py:102-105 | one more iteration assigns the next share exactly when the table has its part and its whole, and leaves the table alone otherwise |
| Steps.ShareInputsOfNumeric | src/cleaning_pipeline.py:101-111 | the share loops read numeric columns |
| Steps.AddShares | src/cleaning_pipeline.py:101-111 | all ten shares hold the quotients of the original cause columns by arr_del15 or arr_delay, wherever their inputs exist; measure columns are unchanged; every column is kept, and every cell outside the ten share columns is unchanged |
| Steps.Flags | src/cleaning_pipeline.py:121-122 | a row is flagged exactly when its five cause counts add up to more than its arr_del15 |
| Steps.CountTrue | src/cleaning_pipeline.py:123 | the count never exceeds the number of rows |
| Steps.CountTrueIsCardinality | src/cleaning_pipeline.py:123 | the count is the number of flagged rows |
| Steps.FlagStep | src/cleaning_pipeline.py:117-123 | with every column of `req` present, the flag column holds each row's flag and the check counts the flags; otherwise neither the table nor the checks change; every column is kept, and every cell outside the flag column is unchanged |
| Steps.CountShareValues | src/cleaning_pipeline.py:104-105 | the five count-based shares of a row with delayed flights, as numbers |
| Steps.FlagIffSharesExceedOne | src/cleaning_pipeline.py:121-122 | for a row with delayed flights, the flag is set exactly when the five count-based shares add up to more than 1 |
| Pipeline.Clean | src/cleaning_pipeline.py:48-123 | a run that does not raise keeps every row and the coerced measure columns; the checks hold at most the flag counter, which is present exactly when the `req` columns are |
| Pipeline.Features | src/cleaning_pipeline.py:77-123 | the steps after the casts raise exactly when the period step does; a run keeps every row and the measure columns, and the checks hold at most the flag counter, present exactly when the `req` columns are |
| Pipeline.CleanKeepsOthers | src/cleaning_pipeline.py:48-123 | every column of the renamed input is kept, every new column is one the script writes, and every cell of a column the script never writes is the renamed input's cell in the same row |
| Pipeline.LaterKeepsOthers | src/cleaning_pipeline.py:88-123 | the rate, share and flag steps keep every column and every cell outside the fourteen columns they write |
| Pipeline.CleanYearMonth | src/cleaning_pipeline.py:70-123 | in the cleaned table each year and month cell is the Int64 cast of the renamed input's cell |
| Pipeline.CleanPeriod | src/cleaning_pipeline.py:80-123 | when the input has year and month, the cleaned table has both and year_month and year_month_key; each row holds integer year and month, the "YYYY-MM" key of them and the month-start date of them |
| Pipeline.CleanRates | src/cleaning_pipeline.py:88-123 | the three rate columns of the cleaned table hold the row-by-row quotients of the coerced input counts, wherever their inputs exist |
| Pipeline.CleanShares | src/cleaning_pipeline.py:101-123 | all ten share columns of the cleaned table hold the row-by-row quotients of the coerced input cause columns by arr_del15 or arr_delay, wherever their inputs exist |
| Pipeline.CleanFlags | src/cleaning_pipeline.py:117-122 | when the input has the `req` columns, the cleaned table has the flag column, and each row's flag says whether its coerced cause counts add up to more than its coerced arr_del15 |
| Pipeline.CleanFailsIff | src/cleaning_pipeline.py:70-86 | the run raises exactly when a year or month is fractional or outside the Int64 range, or, with both columns present, one of them is missing or non-numeric |
| Pipeline.CastsFailIff | src/cleaning_pipeline.py:70-86 | the Int64 casts and `astype("int")` together fail exactly under that condition (a fractional or out-of-range year or month, or a missing one with both columns present), on the coerced table |
| Pipeline.PeriodCastFailsIff | src/cleaning_pipeline.py:80-83 | after successful Int64 casts, line 82 raises exactly when a year or month is <NA> |
| Pipeline.RaisesReadsPeriodFields | src/cleaning_pipeline.py:66-73 | coercing the measure columns cannot change whether the casts raise |
| Pipeline.CastCell | src/cleaning_pipeline.py:73 | after the casts, each year and month cell is the Int64 cast of its value before them |
| Pipeline.CleanMeasures | src/cleaning_pipeline.py:64-68 | in the cleaned table every measure column is present exactly when the renamed input had it, and holds the coerced values |
| Pipeline.CoercedKeptAt | src/cleaning_pipeline.py:64-68 | a table that agrees with the coerced table on some columns holds, in those columns, the coerced values of the original cells |
| Pipeline.CleanChecks | src/cleaning_pipeline.py:117-123 | the check counts the rows whose coerced cause counts exceed their coerced arr_del15, and never exceeds the row count |
| Pipeline.FlagInputsSame | src/cleaning_pipeline.py:119-120 | tables with the same measure columns agree on whether every column of `req` is present |
| Pipeline.FlagsSame | src/cleaning_pipeline.py:121-122 | tables with the same measure columns flag the same rows |
| Cleaning.CountFlags | src/cleaning_pipeline.py:123 | counting in a loop gives the number of flagged rows |
| Cleaning.Frame.constructor | src/cleaning_pipeline.py:42 | the frame holds the loaded table and no checks |
| Cleaning.Frame.Assign | src/cleaning_pipeline.py:68 | the frame afterwards is the column assignment of its old contents |
| Cleaning.Frame.StandardizeHeaders | src/cleaning_pipeline.py:48 | the frame afterwards is `Standardize` of its old contents |
| Cleaning.Frame.CoerceMeasures | src/cleaning_pipeline.py:66-68 | the frame afterwards is the coercion of all measure columns of its old contents |
| Cleaning.Frame.CoerceEach | src/cleaning_pipeline.py:66-68 | the loop over any list of columns leaves the frame equal to their coercion, one column after the other |
| Cleaning.Frame.CastYearMonth | src/cleaning_pipeline.py:71-73 | the method returns true exactly when the Int64 casts succeed (no year or month is fractional or outside the Int64 range), and then the frame holds the cast table |
| Cleaning.Frame.AddPeriodColumns | src/cleaning_pipeline.py:80-86 | the method returns true exactly when the period step succeeds, and then the frame holds its result |
| Cleaning.Frame.AddRateColumns | src/cleaning_pipeline.py:88-99 | the frame afterwards is `AddRates` of its old contents |
| Cleaning.Frame.ShareLoop | src/cleaning_pipeline.py:102-111 | one share loop leaves the frame equal to `ShareColumns` over all five causes |
| Cleaning.Frame.ShareOne | src/cleaning_pipeline.py:103-105 | one iteration of a share loop moves the frame from `ShareColumns` over k causes to `ShareColumns` over k + 1 |
| Cleaning.Frame.AddShareColumns | src/cleaning_pipeline.py:101-111 | the frame afterwards is `AddShares` of its old contents |
| Cleaning.Frame.FlagCauseCounts | src/cleaning_pipeline.py:117-123 | the frame and its checks afterwards are `FlagStep` of their old values |
| Cleaning.Frame.AddFeatures | src/cleaning_pipeline.py:77-123 | the method returns true exactly when `Features` succeeds on the old contents, and then the frame and checks are its result |
| Cleaning.Frame.Run | src/cleaning_pipeline.py:48-123 | the method returns true exactly when `Clean` succeeds, and then the frame and checks are `Clean`'s result |

## Left out

- Reading the CSV (line 42) is not modelled: the frame is built from an already loaded table.
- Writing the three output files, the 500-row sample, the data dictionary and the console summary (lines 125-178) are not modelled. They are I/O and reporting and change nothing the model describes.
- Floating point is not modelled: numbers are exact reals, so rounding in the sums and quotients is not captured.
- Columns.Coerce: a column of bools is read as floats 1.0 and 0.0. `pd.to_numeric` would keep it as a bool column, and the cleaned file would print True and False. Every later step reads the same numbers either way, because `safe_div` casts to float and the cause sum adds bools as 1 and 0. The model coerces cell by cell, so it cannot see a column's dtype.
- Text cells that pandas would parse as numbers are not modelled. A `Text` cell stands for a value `to_numeric` cannot read.
- A datetime cell in a measure column is treated as non-numeric, whereas pandas would read its nanosecond count.
- `to_snake` classifies characters with ASCII semantics. Unicode letters, digits and whitespace outside ASCII are not modelled.
- Steps.Standardize: requires the renamed headers to be distinct. pandas allows duplicate column names; the model does not.
- Columns.Ratio: does not restate the multiplication property of `safe_div`. That property is proved by SafeDivision.SafeDiv and Steps.RatioCellSpec.
- The period key assumes `pd.to_datetime` parses "<year>-<month>-01" strictly as ISO year-month-day. pandas is lenient here and this is not modelled: a month of 13 to 31 can be read as a day with "01" as the month, and the format pandas infers from the first row can swap day and month for the rows after it.
- When the script raises, the model does not describe the partly updated frame. The methods only promise that the frame stays well formed.
