/**
 * DataFrame cells, rows and tables, the column names the cleaning script
 * knows about (src/cleaning_pipeline.py:55-62, 102-123) and the cell-level
 * conversions it applies.
 *
 * A table is its ordered list of column names plus its rows; each row maps
 * every column name to that row's cell. Column assignment (`df[name] = ...`)
 * overwrites an existing column in place and appends a new one at the end.
 */
module Columns {
  import opened Wrappers
  import opened SafeDivision
  import opened Period

  /** One DataFrame cell. */
  datatype Cell =
    | Missing               // NaN, NaT or <NA>
    | Num(val: real)        // a float64 / int64 value
    | Int(n: Int64)         // a nullable Int64 value
    | Text(str: string)     // an object (string) value that does not read as a number
    | Flag(flag: bool)      // a bool value
    | Date(ym: YearMonth)   // a datetime64 value: the first day of a month

  /** The range of a 64-bit signed integer, [-2^63, 2^63). */
  predicate InInt64(n: int) {
    -0x8000_0000_0000_0000 <= n < 0x8000_0000_0000_0000
  }

  type Int64 = n: int | InInt64(n)

  type Row = map<string, Cell>

  datatype Table = Table(columns: seq<string>, rows: seq<Row>)

  predicate Distinct(names: seq<string>) {
    forall i, j :: 0 <= i < j < |names| ==> names[i] != names[j]
  }

  function ColumnSet(names: seq<string>): set<string> {
    set c | c in names
  }

  /** Column names are unique and every row has a cell in exactly those columns. */
  predicate WellFormed(t: Table) {
    Distinct(t.columns) && forall i :: 0 <= i < |t.rows| ==> t.rows[i].Keys == ColumnSet(t.columns)
  }

  /** Every cell of column `col`, when the table has that column, holds a number. */
  predicate NumericColumn(t: Table, col: string)
    requires WellFormed(t)
  {
    col in t.columns ==> forall i :: 0 <= i < |t.rows| ==> t.rows[i][col].Num?
  }

  // ----- Column names -----

  const CountCols: seq<string> :=
    ["arr_flights", "arr_del15", "carrier_ct", "weather_ct", "nas_ct",
     "security_ct", "late_aircraft_ct", "arr_cancelled", "arr_diverted"]
  const DelayMinCols: seq<string> :=
    ["arr_delay", "carrier_delay", "weather_delay", "nas_delay",
     "security_delay", "late_aircraft_delay"]
  /** The fifteen columns coerced to numbers (`count_cols + delay_min_cols`). */
  const MeasureCols: seq<string> := CountCols + DelayMinCols
  const Causes: seq<string> := ["carrier", "weather", "nas", "security", "late_aircraft"]
  const PeriodFields: seq<string> := ["year", "month"]

  const YearMonthCol := "year_month"
  const KeyCol := "year_month_key"
  const DelayedRateCol := "delayed_rate"
  const CancellationRateCol := "cancellation_rate"
  const AvgDelayCol := "avg_delay_min_per_delayed_flight"
  const FlagCol := "cause_counts_exceed_delayed_flag"
  const FlagCheck := "rows_where_cause_counts_exceed_delayed"

  function CountCol(cause: string): string { cause + "_ct" }
  function DelayCol(cause: string): string { cause + "_delay" }
  function ShareCtCol(cause: string): string { cause + "_cause_share_ct" }
  function ShareMinCol(cause: string): string { cause + "_cause_share_min" }

  /** The names the script writes besides the share columns are not measure columns. */
  lemma PeriodNamesNotMeasures(n: string)
    requires n == "year" || n == "month" || n == YearMonthCol || n == KeyCol
    ensures n !in MeasureCols
  {
  }

  lemma KpiNamesNotMeasures(n: string)
    requires n == DelayedRateCol || n == CancellationRateCol || n == AvgDelayCol || n == FlagCol
    ensures n !in MeasureCols
  {
  }

  /** The cause-share columns are not measure columns. */
  lemma ShareNamesNotMeasures(k: int)
    requires 0 <= k < |Causes|
    ensures ShareCtCol(Causes[k]) !in MeasureCols && ShareMinCol(Causes[k]) !in MeasureCols
  {
    var c := Causes[k];
    assert |MeasureCols| == 15;
    forall j | 0 <= j < 15 ensures MeasureCols[j] != ShareCtCol(c) && MeasureCols[j] != ShareMinCol(c) {
      assert |ShareCtCol(c)| == |c| + 15 && |ShareMinCol(c)| == |c| + 16;
      assert ShareMinCol(c)[0] == c[0];
    }
  }

  /** The per-cause count and minute columns are measure columns. */
  lemma CauseColumnsAreMeasures(k: int)
    requires 0 <= k < |Causes|
    ensures CountCol(Causes[k]) == CountCols[k + 2] && CountCol(Causes[k]) in MeasureCols
    ensures DelayCol(Causes[k]) == DelayMinCols[k + 1] && DelayCol(Causes[k]) in MeasureCols
  {
    assert MeasureCols[k + 2] == CountCols[k + 2];
    assert MeasureCols[9 + k + 1] == DelayMinCols[k + 1];
  }

  // ----- Cell conversions -----

  /**
   * `pd.to_numeric(cell, errors="coerce")`: the cell's number, `None` for NaN.
   * Exactly the float, Int64 and bool cells read as numbers.
   */
  function ToNumeric(c: Cell): (r: Option<real>)
    ensures r.Some? <==> c.Num? || c.Int? || c.Flag?
    ensures c.Num? ==> r == Some(c.val)
    ensures c.Int? ==> r == Some(c.n as real)
    ensures c.Missing? || c.Text? ==> r.None?
  {
    match c
    case Num(v) => Some(v)
    case Int(i) => Some(i as real)
    case Flag(b) => Some(if b then 1.0 else 0.0)
    case _ => None
  }

  /**
   * `pd.to_numeric(cell, errors="coerce").fillna(0)`: a number passes
   * through unchanged (negative ones too); a missing or unparseable cell
   * becomes 0.
   */
  function Coerce(c: Cell): (r: Cell)
    ensures r.Num?
    ensures r == c <==> c.Num?
    ensures ToNumeric(c).Some? ==> r.val == ToNumeric(c).value
    ensures ToNumeric(c).None? ==> r.val == 0.0
  {
    Num(ToNumeric(c).GetOr(0.0))
  }

  /** Coercing twice is coercing once. */
  lemma CoerceIdempotent(c: Cell)
    ensures Coerce(Coerce(c)) == Coerce(c)
  {
  }

  predicate IsIntegral(x: real) {
    x == x.Floor as real
  }

  /**
   * Whether the safe cast to Int64 accepts a number: it must be whole and
   * lie in the Int64 range (pandas compares the cast values with the
   * originals and raises when they differ).
   */
  predicate FitsInt64(x: real) {
    IsIntegral(x) && InInt64(x.Floor)
  }

  /**
   * `pd.to_numeric(cell, errors="coerce").astype("Int64")`, `None` when the
   * cast raises: a number with a fractional part, or a whole number outside
   * the Int64 range, cannot be cast; a missing or unparseable cell becomes
   * <NA>.
   */
  function ToInt64(c: Cell): (r: Option<Cell>)
    ensures r.None? <==> ToNumeric(c).Some? && !FitsInt64(ToNumeric(c).value)
    ensures r.Some? ==> (r.value.Int? <==> ToNumeric(c).Some?)
    ensures r.Some? && r.value.Int? ==> r.value.n as real == ToNumeric(c).value
    ensures r.Some? && !r.value.Int? ==> r.value == Missing
    ensures c.Int? ==> r == Some(c)
  {
    match ToNumeric(c)
    case None => Some(Missing)
    case Some(x) => if FitsInt64(x) then Some(Int(x.Floor)) else None
  }

  /**
   * The Int64 range at its edges: 2^63 and 10^19 raise, -2^63 and 2^63 - 1
   * cast to themselves, and 2.5 raises for its fractional part.
   */
  lemma ToInt64Range()
    ensures ToInt64(Num(9223372036854775808.0)).None?
    ensures ToInt64(Num(10000000000000000000.0)).None?
    ensures ToInt64(Num(-9223372036854775808.0)) == Some(Int(-9223372036854775808))
    ensures ToInt64(Num(9223372036854775807.0)) == Some(Int(9223372036854775807))
    ensures ToInt64(Num(2.5)).None?
  {
    assert (2.5).Floor == 2;
  }

  /** A column that was already cast to Int64 casts to itself. */
  lemma ToInt64Idempotent(c: Cell)
    requires ToInt64(c).Some?
    ensures ToInt64(ToInt64(c).value) == ToInt64(c)
  {
  }

  /**
   * One row of lines 81-86: `(year_month, year_month_key)` from the row's
   * Int64 year and month, or `None` when `astype("int")` raises because a
   * year or month is <NA>.
   */
  function PeriodCells(year: Cell, month: Cell): (r: Option<(Cell, Cell)>)
    ensures r.Some? <==> year.Int? && month.Int?
    ensures r.Some? ==> (r.value.1.Text? <==> YearMonthKey(year.n, month.n).Some?)
    ensures r.Some? && r.value.1.Text? ==> Some(r.value.1.str) == YearMonthKey(year.n, month.n)
    ensures r.Some? ==> (r.value.0.Date? <==> r.value.1.Text?)
    ensures r.Some? && !r.value.1.Text? ==> r.value == (Missing, Missing)
  {
    if year.Int? && month.Int? then
      match MonthStart(year.n, month.n)
      case None => Some((Missing, Missing))
      case Some(ym) => Some((Date(ym), Text(FormatKey(ym))))
    else None
  }

  /** `safe_div` on one row: the quotient as a number, or NaN for a zero denominator. */
  function Ratio(num: real, den: real): (r: Cell)
    ensures r.Missing? <==> den == 0.0
    ensures r.Missing? || r.Num?
  {
    match SafeDiv(num, den)
    case None => Missing
    case Some(q) => Num(q)
  }

  // ----- Column assignment -----

  /**
   * `df[name] = values`: the column `name` gets `values` row by row, in its
   * old position when it exists and as a new last column otherwise; every
   * other cell is unchanged.
   */
  function SetColumn(t: Table, name: string, values: seq<Cell>): (r: Table)
    requires WellFormed(t) && |values| == |t.rows|
    ensures WellFormed(r) && |r.rows| == |t.rows|
    ensures r.columns == if name in t.columns then t.columns else t.columns + [name]
    ensures forall i :: 0 <= i < |r.rows| ==> r.rows[i][name] == values[i]
    ensures forall i, c :: 0 <= i < |r.rows| && c in t.columns && c != name ==> r.rows[i][c] == t.rows[i][c]
  {
    var columns := if name in t.columns then t.columns else t.columns + [name];
    assert ColumnSet(columns) == ColumnSet(t.columns) + {name};
    Table(columns, seq(|t.rows|, i requires 0 <= i < |t.rows| => t.rows[i][name := values[i]]))
  }

  /** Setting a column that is not a measure column keeps every measure column numeric. */
  lemma SetColumnKeepsNumeric(t: Table, name: string, values: seq<Cell>, col: string)
    requires WellFormed(t) && |values| == |t.rows| && NumericColumn(t, col) && name != col
    ensures NumericColumn(SetColumn(t, name, values), col)
  {
  }
}
