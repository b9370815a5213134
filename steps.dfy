/**
 * The cleaning script's table transformations (src/cleaning_pipeline.py:48-123),
 * each as a function from the table before the step to the table after it,
 * with the facts proved about each step. The class in cleaning.dfy performs
 * the same steps in place and is proved to agree with these functions.
 */
module Steps {
  import opened Wrappers
  import opened SafeDivision
  import opened Period
  import opened Columns
  import SnakeCase

  /**
   * Two tables with the same number of rows agree on the measure columns:
   * each measure column is in both or in neither, with the same cells.
   */
  predicate SameMeasures(t: Table, r: Table)
    requires WellFormed(t) && WellFormed(r) && |t.rows| == |r.rows|
  {
    forall c :: c in MeasureCols ==>
      (c in t.columns <==> c in r.columns) &&
      (c in t.columns ==> forall i :: 0 <= i < |t.rows| ==> r.rows[i][c] == t.rows[i][c])
  }

  /**
   * `r` is `t` with at most the columns `outs` written: every column of `t`
   * is still there, no column outside `outs` is added, and every cell of a
   * column outside `outs` stays in its row.
   */
  predicate KeepsOthers(t: Table, r: Table, outs: seq<string>)
    requires WellFormed(t) && WellFormed(r) && |t.rows| == |r.rows|
  {
    (forall c :: c in t.columns ==> c in r.columns) &&
    (forall c :: c in r.columns ==> c in t.columns || c in outs) &&
    forall i, c :: 0 <= i < |t.rows| && c in t.columns && c !in outs ==> r.rows[i][c] == t.rows[i][c]
  }

  /** Two steps that write `a` and then `b` together write at most `a + b`. */
  lemma KeepsOthersTrans(t: Table, u: Table, r: Table, a: seq<string>, b: seq<string>)
    requires WellFormed(t) && WellFormed(u) && WellFormed(r) && |t.rows| == |u.rows| == |r.rows|
    requires KeepsOthers(t, u, a) && KeepsOthers(u, r, b)
    ensures KeepsOthers(t, r, a + b)
  {
  }

  /** Every measure column the table has holds numbers only. */
  predicate Numeric(t: Table)
    requires WellFormed(t)
  {
    forall c :: c in MeasureCols ==> NumericColumn(t, c)
  }

  lemma SameMeasuresKeepsNumeric(t: Table, r: Table)
    requires WellFormed(t) && WellFormed(r) && |t.rows| == |r.rows|
    requires SameMeasures(t, r) && Numeric(t)
    ensures Numeric(r)
  {
    forall c | c in MeasureCols ensures NumericColumn(r, c) {
      assert NumericColumn(t, c);
    }
  }

  lemma SameMeasuresTrans(t: Table, u: Table, r: Table)
    requires WellFormed(t) && WellFormed(u) && WellFormed(r) && |t.rows| == |u.rows| == |r.rows|
    requires SameMeasures(t, u) && SameMeasures(u, r)
    ensures SameMeasures(t, r)
  {
  }

  /** Assigning a column that is not a measure column leaves the measure columns alone. */
  lemma SetColumnSameMeasures(t: Table, name: string, values: seq<Cell>)
    requires WellFormed(t) && |values| == |t.rows| && name !in MeasureCols
    ensures SameMeasures(t, SetColumn(t, name, values))
  {
  }

  /** Assigning one column writes no other column. */
  lemma SetColumnKeepsOthers(t: Table, name: string, values: seq<Cell>)
    requires WellFormed(t) && |values| == |t.rows|
    ensures KeepsOthers(t, SetColumn(t, name, values), [name])
  {
    var r := SetColumn(t, name, values);
    forall i, c | 0 <= i < |t.rows| && c in t.columns && c !in [name] ensures r.rows[i][c] == t.rows[i][c] {
      assert c != name;
    }
  }

  // ===== Step 2: standardise column names (line 48) =====

  /** One row under new column names: the cell of old name `from[k]` moves to `to[k]`. */
  function RenameRow(row: Row, from: seq<string>, to: seq<string>): (r: Row)
    requires |from| == |to| && Distinct(to) && ColumnSet(from) <= row.Keys
    ensures r.Keys == ColumnSet(to)
    ensures forall k :: 0 <= k < |to| ==> r[to[k]] == row[from[k]]
  {
    map k | 0 <= k < |from| :: to[k] := row[from[k]]
  }

  /**
   * `df.columns = [to_snake(c) for c in df.columns]`: every header is
   * replaced by its snake-case form and every cell stays in its row and its
   * position. The model requires the new headers to be distinct.
   */
  function Standardize(t: Table): (r: Table)
    requires WellFormed(t) && Distinct(SnakeCase.SnakeHeaders(t.columns))
    ensures WellFormed(r) && |r.rows| == |t.rows|
    ensures r.columns == SnakeCase.SnakeHeaders(t.columns)
    ensures forall i, k :: 0 <= i < |t.rows| && 0 <= k < |t.columns| ==> r.rows[i][r.columns[k]] == t.rows[i][t.columns[k]]
  {
    var names := SnakeCase.SnakeHeaders(t.columns);
    Table(names, RenameRows(t, names))
  }

  /** Every row of `t` under the column names `names`. */
  function RenameRows(t: Table, names: seq<string>): seq<Row>
    requires WellFormed(t) && |names| == |t.columns| && Distinct(names)
  {
    seq(|t.rows|, i requires 0 <= i < |t.rows| => RenameRow(t.rows[i], t.columns, names))
  }

  /** After standardisation every column name is made of lower-case letters, digits and '_'. */
  lemma StandardizedNamesAreSnake(t: Table)
    requires WellFormed(t) && Distinct(SnakeCase.SnakeHeaders(t.columns))
    ensures forall k, j :: 0 <= k < |Standardize(t).columns| && 0 <= j < |Standardize(t).columns[k]| ==>
              SnakeCase.IsSnakeChar(Standardize(t).columns[k][j])
  {
    SnakeCase.SnakeHeadersCharset(t.columns);
  }

  // ===== Step 3a: numeric coercion of the measure columns (lines 64-68) =====

  /** `df[col] = pd.to_numeric(df[col], errors="coerce").fillna(0)` when the column exists. */
  function CoerceColumn(t: Table, col: string): (r: Table)
    requires WellFormed(t)
    ensures WellFormed(r) && r.columns == t.columns && |r.rows| == |t.rows|
  {
    if col in t.columns then
      SetColumn(t, col, CoercedCells(t, col))
    else t
  }

  /** The cells of column `col` after `to_numeric(errors="coerce").fillna(0)`. */
  function CoercedCells(t: Table, col: string): seq<Cell>
    requires WellFormed(t) && col in t.columns
  {
    seq(|t.rows|, i requires 0 <= i < |t.rows| => Coerce(t.rows[i][col]))
  }

  /** The loop of lines 66-68 over `cols`, one column after the other. */
  function CoerceColumns(t: Table, cols: seq<string>): (r: Table)
    requires WellFormed(t)
    ensures WellFormed(r) && r.columns == t.columns && |r.rows| == |t.rows|
    decreases |cols|
  {
    if cols == [] then t else CoerceColumn(CoerceColumns(t, cols[..|cols| - 1]), cols[|cols| - 1])
  }

  /**
   * Coercion touches exactly the listed columns the table has: their cells
   * become numbers (missing or unparseable ones 0, numbers unchanged) and
   * every other cell keeps its value; no row is added, dropped or moved.
   */
  lemma {:induction false} CoerceColumnsSpec(t: Table, cols: seq<string>)
    requires WellFormed(t)
    ensures forall i, c :: 0 <= i < |t.rows| && c in t.columns ==>
              CoerceColumns(t, cols).rows[i][c] == if c in cols then Coerce(t.rows[i][c]) else t.rows[i][c]
    decreases |cols|
  {
    if cols != [] {
      var init := cols[..|cols| - 1];
      var last := cols[|cols| - 1];
      CoerceColumnsSpec(t, init);
      var u := CoerceColumns(t, init);
      forall i, c | 0 <= i < |t.rows| && c in t.columns
        ensures CoerceColumns(t, cols).rows[i][c] == if c in cols then Coerce(t.rows[i][c]) else t.rows[i][c]
      {
        assert c in cols <==> c in init || c == last;
        if c == last {
          CoerceIdempotent(t.rows[i][c]);
        }
      }
    }
  }

  /** Coercing the columns `cols` writes no other column. */
  lemma CoerceColumnsKeepsOthers(t: Table, cols: seq<string>)
    requires WellFormed(t)
    ensures KeepsOthers(t, CoerceColumns(t, cols), cols)
  {
    CoerceColumnsSpec(t, cols);
  }

  /** After the coercion loop every measure column the table has is numeric. */
  lemma CoercedMeasuresNumeric(t: Table)
    requires WellFormed(t)
    ensures Numeric(CoerceColumns(t, MeasureCols))
  {
    CoercedColumnsNumeric(t, MeasureCols);
  }

  /** After coercing the columns `cols`, each of them that the table has holds numbers only. */
  lemma CoercedColumnsNumeric(t: Table, cols: seq<string>)
    requires WellFormed(t)
    ensures forall c :: c in cols ==> NumericColumn(CoerceColumns(t, cols), c)
  {
    var r := CoerceColumns(t, cols);
    CoerceColumnsSpec(t, cols);
    forall c | c in cols && c in r.columns ensures forall i :: 0 <= i < |r.rows| ==> r.rows[i][c].Num? {
      forall i | 0 <= i < |r.rows| ensures r.rows[i][c].Num? {
        assert r.rows[i][c] == Coerce(t.rows[i][c]);
      }
    }
  }

  // ===== Step 3b: year and month as nullable integers (lines 70-73) =====

  /** Every cell of `col` can be cast to Int64. */
  predicate CastableColumn(t: Table, col: string)
    requires WellFormed(t) && col in t.columns
  {
    forall i :: 0 <= i < |t.rows| ==> ToInt64(t.rows[i][col]).Some?
  }

  /** `df[col] = pd.to_numeric(df[col], errors="coerce").astype("Int64")`, `None` when the cast raises. */
  function CastColumn(t: Table, col: string): (r: Option<Table>)
    requires WellFormed(t)
    ensures r.Some? ==> WellFormed(r.value) && r.value.columns == t.columns && |r.value.rows| == |t.rows|
  {
    if col !in t.columns then Some(t)
    else if CastableColumn(t, col) then
      Some(SetColumn(t, col, CastCells(t, col)))
    else None
  }

  /** The cells of column `col` after `astype("Int64")`. */
  function CastCells(t: Table, col: string): seq<Cell>
    requires WellFormed(t) && col in t.columns && CastableColumn(t, col)
  {
    seq(|t.rows|, i requires 0 <= i < |t.rows| => ToInt64(t.rows[i][col]).value)
  }

  /** The loop of lines 71-73 over the first `n` of "year", "month"; it stops at the first cast that raises. */
  function CastPeriodFields(t: Table, n: nat): (r: Option<Table>)
    requires WellFormed(t) && n <= |PeriodFields|
    ensures r.Some? ==> WellFormed(r.value) && r.value.columns == t.columns && |r.value.rows| == |t.rows|
  {
    if n == 0 then Some(t)
    else match CastPeriodFields(t, n - 1)
      case None => None
      case Some(u) => CastColumn(u, PeriodFields[n - 1])
  }

  /** Once a cast has raised, the rest of the loop does not run: the whole loop fails. */
  lemma {:induction false} CastFailureStays(t: Table, n: nat)
    requires WellFormed(t) && n <= |PeriodFields| && CastPeriodFields(t, n).None?
    ensures CastPeriodFields(t, |PeriodFields|).None?
    decreases |PeriodFields| - n
  {
    if n < |PeriodFields| {
      CastFailureStays(t, n + 1);
    }
  }

  /**
   * The casts fail exactly when a year or month cell holds a number with a
   * fractional part or a whole number outside the Int64 range; otherwise
   * those cells become Int64 integers or <NA>
   * and every other cell is unchanged.
   */
  lemma {:induction false} CastPeriodFieldsSpec(t: Table, n: nat)
    requires WellFormed(t) && n <= |PeriodFields|
    ensures CastPeriodFields(t, n).Some? <==>
              forall i, c :: 0 <= i < |t.rows| && c in PeriodFields[..n] && c in t.columns ==> ToInt64(t.rows[i][c]).Some?
    ensures CastPeriodFields(t, n).Some? ==>
              forall i, c :: 0 <= i < |t.rows| && c in t.columns ==>
                CastPeriodFields(t, n).value.rows[i][c] == if c in PeriodFields[..n] then ToInt64(t.rows[i][c]).value else t.rows[i][c]
  {
    if n > 0 {
      CastPeriodFieldsSpec(t, n - 1);
      var col := PeriodFields[n - 1];
      assert PeriodFields[..n] == PeriodFields[..n - 1] + [col];
      assert "year" != "month";
      match CastPeriodFields(t, n - 1)
      case None =>
      case Some(u) =>
        assert forall c :: c in PeriodFields[..n] <==> c in PeriodFields[..n - 1] || c == col;
        assert col !in PeriodFields[..n - 1];
        if col in t.columns {
          assert forall i :: 0 <= i < |t.rows| ==> u.rows[i][col] == t.rows[i][col];
        }
    }
  }

  /**
   * `cast` is `t` after the casts of lines 71-73: each year and month cell
   * is the Int64 cast of its old value, and no other column is written.
   */
  predicate PeriodCast(t: Table, cast: Table)
    requires WellFormed(t) && WellFormed(cast) && |t.rows| == |cast.rows|
  {
    KeepsOthers(t, cast, PeriodFields) &&
    forall i, c :: 0 <= i < |t.rows| && c in PeriodFields && c in t.columns ==>
      ToInt64(t.rows[i][c]).Some? && cast.rows[i][c] == ToInt64(t.rows[i][c]).value
  }

  /** Successful casts of the period fields are `PeriodCast`. */
  lemma CastPeriodFieldsCells(t: Table)
    requires WellFormed(t)
    ensures CastPeriodFields(t, 2).Some? ==> PeriodCast(t, CastPeriodFields(t, 2).value)
  {
    CastPeriodFieldsSpec(t, 2);
    assert PeriodFields[..2] == PeriodFields;
  }

  /** Casting the period fields changes no measure column. */
  lemma CastPeriodFieldsSameMeasures(t: Table)
    requires WellFormed(t)
    ensures CastPeriodFields(t, 2).Some? ==> SameMeasures(t, CastPeriodFields(t, 2).value)
  {
    CastPeriodFieldsSpec(t, 2);
    assert PeriodFields[..2] == PeriodFields;
    forall c | c in PeriodFields ensures c !in MeasureCols {
      PeriodNamesNotMeasures(c);
    }
  }

  // ===== Step 4a: the period columns (lines 79-86) =====

  /** Every row has an integer year and month, so `astype("int")` does not raise. */
  predicate PeriodCastable(t: Table)
    requires WellFormed(t) && "year" in t.columns && "month" in t.columns
  {
    forall i :: 0 <= i < |t.rows| ==> PeriodCells(t.rows[i]["year"], t.rows[i]["month"]).Some?
  }

  /**
   * When the table has both "year" and "month": the columns "year_month"
   * (datetime of the month's first day) and "year_month_key" ("YYYY-MM"),
   * or `None` when some year or month is <NA> and the cast raises.
   */
  function AddPeriod(t: Table): (r: Option<Table>)
    requires WellFormed(t)
    ensures r.Some? ==> WellFormed(r.value) && |r.value.rows| == |t.rows|
    ensures r.Some? ==> KeepsOthers(t, r.value, [YearMonthCol, KeyCol])
  {
    if "year" in t.columns && "month" in t.columns then
      if PeriodCastable(t) then
        var dated := SetColumn(t, YearMonthCol, DateCells(t));
        Some(SetColumn(dated, KeyCol, KeyCells(t)))
      else None
    else Some(t)
  }

  /** Each row's "year_month" cell. */
  function DateCells(t: Table): seq<Cell>
    requires WellFormed(t) && "year" in t.columns && "month" in t.columns && PeriodCastable(t)
  {
    seq(|t.rows|, i requires 0 <= i < |t.rows| => PeriodCells(t.rows[i]["year"], t.rows[i]["month"]).value.0)
  }

  /** Each row's "year_month_key" cell. */
  function KeyCells(t: Table): seq<Cell>
    requires WellFormed(t) && "year" in t.columns && "month" in t.columns && PeriodCastable(t)
  {
    seq(|t.rows|, i requires 0 <= i < |t.rows| => PeriodCells(t.rows[i]["year"], t.rows[i]["month"]).value.1)
  }

  /** The "year_month_key" cell for an Int64 year and month: the key, or missing. */
  function KeyCell(year: int, month: int): Cell {
    match YearMonthKey(year, month)
    case None => Missing
    case Some(k) => Text(k)
  }

  /** The "year_month" cell for an Int64 year and month: the first day of the month, or missing. */
  function DateCell(year: int, month: int): Cell {
    match MonthStart(year, month)
    case None => Missing
    case Some(ym) => Date(ym)
  }

  /**
   * The period step fails exactly when the table has both fields and some
   * row's year or month is not an integer.
   */
  lemma AddPeriodFailsIff(t: Table)
    requires WellFormed(t)
    ensures AddPeriod(t).None? <==>
              "year" in t.columns && "month" in t.columns &&
              exists i :: 0 <= i < |t.rows| && !(t.rows[i]["year"].Int? && t.rows[i]["month"].Int?)
  {
  }

  /**
   * When the period step succeeds no row is dropped: each row gets the
   * "YYYY-MM" key of its own year and month, or a missing key (and a
   * missing date) when the month is outside 1..12 or the date is not
   * representable; every other column is unchanged.
   */
  lemma AddPeriodSpec(t: Table)
    requires WellFormed(t)
    ensures AddPeriod(t).Some? && "year" in t.columns && "month" in t.columns ==>
              KeyCol in AddPeriod(t).value.columns && YearMonthCol in AddPeriod(t).value.columns &&
              forall i :: 0 <= i < |t.rows| ==>
                var y := t.rows[i]["year"].n;
                var m := t.rows[i]["month"].n;
                AddPeriod(t).value.rows[i][KeyCol] == KeyCell(y, m) &&
                AddPeriod(t).value.rows[i][YearMonthCol] == DateCell(y, m)
    ensures AddPeriod(t).Some? ==>
              forall i, c :: 0 <= i < |t.rows| && c in t.columns && c != YearMonthCol && c != KeyCol ==>
                AddPeriod(t).value.rows[i][c] == t.rows[i][c]
  {
    assert YearMonthCol != KeyCol by {
      assert |YearMonthCol| != |KeyCol|;
    }
  }

  /** The period step changes no measure column. */
  lemma AddPeriodSameMeasures(t: Table)
    requires WellFormed(t)
    ensures AddPeriod(t).Some? ==> SameMeasures(t, AddPeriod(t).value)
  {
    if "year" in t.columns && "month" in t.columns && PeriodCastable(t) {
      PeriodNamesNotMeasures(YearMonthCol);
      PeriodNamesNotMeasures(KeyCol);
    }
  }

  // ===== Step 4b: the KPI ratios (lines 88-111) =====

  /**
   * `df[out] = safe_div(df[num], df[den])` when the table has both input
   * columns: each row's quotient, missing where the denominator is 0.
   */
  function RatioColumn(t: Table, num: string, den: string, out: string): (r: Table)
    requires WellFormed(t) && NumericColumn(t, num) && NumericColumn(t, den)
    ensures WellFormed(r) && |r.rows| == |t.rows|
    ensures r.columns == if num in t.columns && den in t.columns && out !in t.columns then t.columns + [out] else t.columns
    ensures num in t.columns && den in t.columns ==>
              out in r.columns && forall i :: 0 <= i < |t.rows| ==> r.rows[i][out] == RatioCell(t.rows[i], num, den)
    ensures forall i, c :: 0 <= i < |t.rows| && c in t.columns && c != out ==> r.rows[i][c] == t.rows[i][c]
    ensures !(num in t.columns && den in t.columns) ==> r == t
    ensures out !in MeasureCols ==> SameMeasures(t, r)
  {
    if num in t.columns && den in t.columns then
      var r := SetColumn(t, out, RatioCells(t, num, den));
      SetColumnResultSameMeasures(t, out, r);
      r
    else t
  }

  /** `safe_div(df[num], df[den])`, row by row. */
  function RatioCells(t: Table, num: string, den: string): seq<Cell>
    requires WellFormed(t) && num in t.columns && den in t.columns && NumericColumn(t, num) && NumericColumn(t, den)
  {
    seq(|t.rows|, i requires 0 <= i < |t.rows| => RatioCell(t.rows[i], num, den))
  }

  /** One row's `safe_div(row[num], row[den])`. */
  function RatioCell(row: Row, num: string, den: string): Cell
    requires num in row && den in row && row[num].Num? && row[den].Num?
  {
    Ratio(row[num].val, row[den].val)
  }

  /**
   * A ratio cell is missing exactly when the denominator is 0, and
   * otherwise is the number that times the denominator gives the numerator.
   */
  lemma RatioCellSpec(row: Row, num: string, den: string)
    requires num in row && den in row && row[num].Num? && row[den].Num?
    ensures RatioCell(row, num, den).Missing? <==> row[den].val == 0.0
    ensures RatioCell(row, num, den).Num? ==> RatioCell(row, num, den).val * row[den].val == row[num].val
  {
    assert RatioCell(row, num, den).Num? ==> Some(RatioCell(row, num, den).val) == SafeDiv(row[num].val, row[den].val);
  }

  /** `SetColumnSameMeasures` stated on the result of the assignment. */
  lemma SetColumnResultSameMeasures(t: Table, name: string, r: Table)
    requires WellFormed(t) && WellFormed(r) && |r.rows| == |t.rows|
    requires r.columns == if name in t.columns then t.columns else t.columns + [name]
    requires forall i, c :: 0 <= i < |r.rows| && c in t.columns && c != name ==> r.rows[i][c] == t.rows[i][c]
    ensures name !in MeasureCols ==> SameMeasures(t, r)
  {
  }

  /**
   * `cancellation_rate` (lines 93-95): cancelled flights over
   * flights + cancelled + diverted, when the table has all three columns
   * (called with "arr_flights", "arr_cancelled" and "arr_diverted").
   */
  function CancellationColumn(t: Table, flights: string, cancelled: string, diverted: string, out: string): (r: Table)
    requires WellFormed(t)
    requires NumericColumn(t, flights) && NumericColumn(t, cancelled) && NumericColumn(t, diverted)
    ensures WellFormed(r) && |r.rows| == |t.rows|
    ensures r.columns == if flights in t.columns && cancelled in t.columns && diverted in t.columns
                            && out !in t.columns then t.columns + [out] else t.columns
    ensures flights in t.columns && cancelled in t.columns && diverted in t.columns ==>
              out in r.columns && forall i :: 0 <= i < |t.rows| ==>
                r.rows[i][out] == CancellationCell(t.rows[i], flights, cancelled, diverted)
    ensures forall i, c :: 0 <= i < |t.rows| && c in t.columns && c != out ==> r.rows[i][c] == t.rows[i][c]
    ensures out !in MeasureCols ==> SameMeasures(t, r)
  {
    if flights in t.columns && cancelled in t.columns && diverted in t.columns then
      var r := SetColumn(t, out, CancellationCells(t, flights, cancelled, diverted));
      SetColumnResultSameMeasures(t, out, r);
      r
    else t
  }

  function CancellationCells(t: Table, flights: string, cancelled: string, diverted: string): (v: seq<Cell>)
    requires WellFormed(t) && flights in t.columns && cancelled in t.columns && diverted in t.columns
    requires NumericColumn(t, flights) && NumericColumn(t, cancelled) && NumericColumn(t, diverted)
    ensures |v| == |t.rows|
    ensures forall i :: 0 <= i < |t.rows| ==> v[i] == CancellationCell(t.rows[i], flights, cancelled, diverted)
  {
    seq(|t.rows|, i requires 0 <= i < |t.rows| => CancellationCell(t.rows[i], flights, cancelled, diverted))
  }

  /** One row's cancellation rate: cancelled over flights + cancelled + diverted. */
  function CancellationCell(row: Row, flights: string, cancelled: string, diverted: string): Cell
    requires flights in row && cancelled in row && diverted in row
    requires row[flights].Num? && row[cancelled].Num? && row[diverted].Num?
  {
    Ratio(row[cancelled].val, row[flights].val + row[cancelled].val + row[diverted].val)
  }

  /**
   * With non-negative counts a row's cancellation rate is missing only when
   * it has no flights, cancellations or diversions, and otherwise lies
   * between 0 and 1.
   */
  lemma CancellationCellInUnit(row: Row, flights: string, cancelled: string, diverted: string)
    requires flights in row && cancelled in row && diverted in row
    requires row[flights].Num? && row[cancelled].Num? && row[diverted].Num?
    requires row[flights].val >= 0.0 && row[cancelled].val >= 0.0 && row[diverted].val >= 0.0
    ensures CancellationCell(row, flights, cancelled, diverted).Missing? <==>
              row[flights].val == row[cancelled].val == row[diverted].val == 0.0
    ensures CancellationCell(row, flights, cancelled, diverted).Num? ==>
              0.0 <= CancellationCell(row, flights, cancelled, diverted).val <= 1.0
  {
    CancellationRateInUnit(row[flights].val, row[cancelled].val, row[diverted].val);
  }

  /** The columns the three rates read are numeric. */
  predicate RateInputsOk(t: Table)
    requires WellFormed(t)
  {
    NumericColumn(t, "arr_del15") && NumericColumn(t, "arr_flights") && NumericColumn(t, "arr_delay") &&
    NumericColumn(t, "arr_cancelled") && NumericColumn(t, "arr_diverted")
  }

  /** The columns the ratios read are measure columns, so they are numeric. */
  lemma RateInputsNumeric(t: Table)
    requires WellFormed(t) && Numeric(t)
    ensures RateInputsOk(t)
  {
    RateInputsAreMeasures();
  }

  lemma RateInputsAreMeasures()
    ensures "arr_flights" in MeasureCols && "arr_del15" in MeasureCols && "arr_delay" in MeasureCols
    ensures "arr_cancelled" in MeasureCols && "arr_diverted" in MeasureCols
  {
    assert MeasureCols[0] == "arr_flights" && MeasureCols[1] == "arr_del15";
    assert MeasureCols[7] == "arr_cancelled" && MeasureCols[8] == "arr_diverted" && MeasureCols[9] == "arr_delay";
  }

  /** `r` holds `safe_div(t[num], t[den])` in column `out` wherever `t` has both inputs. */
  predicate RatioDone(t: Table, r: Table, num: string, den: string, out: string)
    requires WellFormed(t) && WellFormed(r) && |r.rows| == |t.rows|
    requires NumericColumn(t, num) && NumericColumn(t, den)
  {
    num in t.columns && den in t.columns ==>
      out in r.columns && forall i :: 0 <= i < |t.rows| ==> r.rows[i][out] == RatioCell(t.rows[i], num, den)
  }

  /** `r` holds the cancellation rate of `t` in column `out` wherever `t` has the three inputs. */
  predicate CancellationDone(t: Table, r: Table, flights: string, cancelled: string, diverted: string, out: string)
    requires WellFormed(t) && WellFormed(r) && |r.rows| == |t.rows|
    requires NumericColumn(t, flights) && NumericColumn(t, cancelled) && NumericColumn(t, diverted)
  {
    flights in t.columns && cancelled in t.columns && diverted in t.columns ==>
      out in r.columns && forall i :: 0 <= i < |t.rows| ==>
        r.rows[i][out] == CancellationCell(t.rows[i], flights, cancelled, diverted)
  }

  /**
   * `r` holds the three rates of `t` (lines 88-99): delayed_rate =
   * arr_del15 / arr_flights, cancellation_rate = arr_cancelled /
   * (arr_flights + arr_cancelled + arr_diverted) and
   * avg_delay_min_per_delayed_flight = arr_delay / arr_del15.
   */
  predicate RatesDone(t: Table, r: Table)
    requires WellFormed(t) && WellFormed(r) && |r.rows| == |t.rows| && RateInputsOk(t)
  {
    RatioDone(t, r, "arr_del15", "arr_flights", DelayedRateCol) &&
    CancellationDone(t, r, "arr_flights", "arr_cancelled", "arr_diverted", CancellationRateCol) &&
    RatioDone(t, r, "arr_delay", "arr_del15", AvgDelayCol)
  }

  /** The three rate columns, in the order lines 88-99 write them. */
  const RateCols: seq<string> := [DelayedRateCol, CancellationRateCol, AvgDelayCol]

  /** Lines 88-99: delayed rate, cancellation rate and average delay per delayed flight. */
  function AddRates(t: Table): (r: Table)
    requires WellFormed(t) && Numeric(t)
    ensures WellFormed(r) && |r.rows| == |t.rows| && SameMeasures(t, r)
    ensures RateInputsOk(t) && RatesDone(t, r)
    ensures KeepsOthers(t, r, RateCols)
  {
    RateInputsNumeric(t);
    KpiNamesNotMeasures(DelayedRateCol);
    var delayed := RatioColumn(t, "arr_del15", "arr_flights", DelayedRateCol);
    SameMeasuresKeepsNumeric(t, delayed);
    RateInputsNumeric(delayed);
    KpiNamesNotMeasures(CancellationRateCol);
    var cancelled := CancellationColumn(delayed, "arr_flights", "arr_cancelled", "arr_diverted", CancellationRateCol);
    SameMeasuresKeepsNumeric(delayed, cancelled);
    RateInputsNumeric(cancelled);
    KpiNamesNotMeasures(AvgDelayCol);
    var r := RatioColumn(cancelled, "arr_delay", "arr_del15", AvgDelayCol);
    SameMeasuresTrans(t, delayed, cancelled);
    SameMeasuresTrans(t, cancelled, r);
    RateOutputsDistinct();
    RateNamesNotInputs();
    ThreeRatesSteps(t, delayed, cancelled, r, "arr_del15", "arr_flights", "arr_cancelled", "arr_diverted", "arr_delay",
                    DelayedRateCol, CancellationRateCol, AvgDelayCol);
    ThreeRatesKeepOthers(t, delayed, cancelled, r, "arr_del15", "arr_flights", "arr_cancelled", "arr_diverted", "arr_delay",
                         DelayedRateCol, CancellationRateCol, AvgDelayCol);
    r
  }

  /**
   * The three rate steps for any column names: `o1 = del15 / flights`, then
   * the cancellation rate as `o2`, then `o3 = delay / del15`, where the
   * outputs differ from each other and from every input.
   */
  lemma ThreeRatesSteps(t: Table, delayed: Table, cancelled: Table, r: Table,
                        del15: string, flights: string, canc: string, div: string, delay: string,
                        o1: string, o2: string, o3: string)
    requires WellFormed(t) && NumericColumn(t, del15) && NumericColumn(t, flights) && NumericColumn(t, delay)
    requires NumericColumn(t, canc) && NumericColumn(t, div)
    requires o1 != o2 && o1 != o3 && o2 != o3
    requires forall o :: o in [o1, o2, o3] ==> o != del15 && o != flights && o != canc && o != div && o != delay
    requires delayed == RatioColumn(t, del15, flights, o1)
    requires NumericColumn(delayed, flights) && NumericColumn(delayed, canc) && NumericColumn(delayed, div)
    requires cancelled == CancellationColumn(delayed, flights, canc, div, o2)
    requires NumericColumn(cancelled, delay) && NumericColumn(cancelled, del15)
    requires r == RatioColumn(cancelled, delay, del15, o3)
    ensures RatioDone(t, r, del15, flights, o1)
    ensures CancellationDone(t, r, flights, canc, div, o2)
    ensures RatioDone(t, r, delay, del15, o3)
  {
    assert o1 in [o1, o2, o3] && o2 in [o1, o2, o3] && o3 in [o1, o2, o3];
    assert KeepsOthers(t, delayed, [o1]);
    assert KeepsOthers(delayed, cancelled, [o2]);
    assert KeepsOthers(cancelled, r, [o3]);
    RatioDoneKept(t, delayed, cancelled, del15, flights, o1, o2);
    RatioDoneKept(t, cancelled, r, del15, flights, o1, o3);
    CancellationDoneFrom(t, delayed, cancelled, flights, canc, div, o2, o1);
    CancellationDoneKept(t, cancelled, r, flights, canc, div, o2, o3);
    KeepsOthersTwice(t, delayed, cancelled, o1, o2);
    RatioDoneFrom2(t, cancelled, r, delay, del15, o3, o1, o2);
  }

  /** The three rate steps for any column names write at most their three outputs. */
  lemma ThreeRatesKeepOthers(t: Table, delayed: Table, cancelled: Table, r: Table,
                             del15: string, flights: string, canc: string, div: string, delay: string,
                             o1: string, o2: string, o3: string)
    requires WellFormed(t) && NumericColumn(t, del15) && NumericColumn(t, flights)
    requires delayed == RatioColumn(t, del15, flights, o1)
    requires NumericColumn(delayed, flights) && NumericColumn(delayed, canc) && NumericColumn(delayed, div)
    requires cancelled == CancellationColumn(delayed, flights, canc, div, o2)
    requires NumericColumn(cancelled, delay) && NumericColumn(cancelled, del15)
    requires r == RatioColumn(cancelled, delay, del15, o3)
    ensures KeepsOthers(t, r, [o1, o2, o3])
  {
    ThreeStepsKeepOthers(t, delayed, cancelled, r, o1, o2, o3);
  }

  /** Three steps that each write one column together write at most those three. */
  lemma ThreeStepsKeepOthers(t: Table, u: Table, v: Table, r: Table, o1: string, o2: string, o3: string)
    requires WellFormed(t) && WellFormed(u) && WellFormed(v) && WellFormed(r)
    requires |t.rows| == |u.rows| == |v.rows| == |r.rows|
    requires KeepsOthers(t, u, [o1]) && KeepsOthers(u, v, [o2]) && KeepsOthers(v, r, [o3])
    ensures KeepsOthers(t, r, [o1, o2, o3])
  {
    KeepsOthersTrans(t, u, v, [o1], [o2]);
    KeepsOthersTrans(t, v, r, [o1] + [o2], [o3]);
    assert [o1] + [o2] + [o3] == [o1, o2, o3];
  }

  /** The three rate outputs are different columns. */
  lemma RateOutputsDistinct()
    ensures DelayedRateCol != CancellationRateCol && DelayedRateCol != AvgDelayCol && CancellationRateCol != AvgDelayCol
  {
    assert |DelayedRateCol| == 12 && |CancellationRateCol| == 17 && |AvgDelayCol| == 32;
  }

  /** No rate output is one of the rate inputs. */
  lemma RateNamesNotInputs()
    ensures forall out :: out in [DelayedRateCol, CancellationRateCol, AvgDelayCol] ==>
              out != "arr_del15" && out != "arr_flights" && out != "arr_delay" &&
              out != "arr_cancelled" && out != "arr_diverted"
  {
    RateInputsAreMeasures();
    KpiNamesNotMeasures(DelayedRateCol);
    KpiNamesNotMeasures(CancellationRateCol);
    KpiNamesNotMeasures(AvgDelayCol);
  }

  /** Two steps that each write one column keep every other cell of `t`. */
  lemma KeepsOthersTwice(t: Table, u: Table, r: Table, a: string, b: string)
    requires WellFormed(t) && WellFormed(u) && WellFormed(r) && |u.rows| == |t.rows| && |r.rows| == |u.rows|
    requires KeepsOthers(t, u, [a]) && KeepsOthers(u, r, [b])
    ensures forall c :: c in t.columns ==> c in r.columns
    ensures forall i, c :: 0 <= i < |t.rows| && c in t.columns && c != a && c != b ==> r.rows[i][c] == t.rows[i][c]
  {
    forall c | c in t.columns ensures c in r.columns {
      assert c in u.columns;
    }
    forall i, c | 0 <= i < |t.rows| && c in t.columns && c != a && c != b ensures r.rows[i][c] == t.rows[i][c] {
      assert c !in [a] && c !in [b] && c in u.columns;
      assert u.rows[i][c] == t.rows[i][c];
    }
  }

  /** A finished ratio column survives a later step that writes another column. */
  lemma RatioDoneKept(t: Table, u: Table, r: Table, num: string, den: string, out: string, other: string)
    requires WellFormed(t) && WellFormed(u) && WellFormed(r) && |u.rows| == |t.rows| && |r.rows| == |u.rows|
    requires NumericColumn(t, num) && NumericColumn(t, den)
    requires RatioDone(t, u, num, den, out) && KeepsOthers(u, r, [other]) && out != other
    ensures RatioDone(t, r, num, den, out)
  {
  }

  /** A finished cancellation column survives a later step that writes another column. */
  lemma CancellationDoneKept(t: Table, u: Table, r: Table, flights: string, cancelled: string, diverted: string,
                             out: string, other: string)
    requires WellFormed(t) && WellFormed(u) && WellFormed(r) && |u.rows| == |t.rows| && |r.rows| == |u.rows|
    requires NumericColumn(t, flights) && NumericColumn(t, cancelled) && NumericColumn(t, diverted)
    requires CancellationDone(t, u, flights, cancelled, diverted, out) && KeepsOthers(u, r, [other]) && out != other
    ensures CancellationDone(t, r, flights, cancelled, diverted, out)
  {
  }

  /** The cancellation rate read from `u` is that of `t` when `u` changed none of its inputs. */
  lemma CancellationDoneFrom(t: Table, u: Table, r: Table, flights: string, cancelled: string, diverted: string,
                             out: string, other: string)
    requires WellFormed(t) && WellFormed(u) && WellFormed(r) && |u.rows| == |t.rows| && |r.rows| == |u.rows|
    requires NumericColumn(t, flights) && NumericColumn(t, cancelled) && NumericColumn(t, diverted)
    requires NumericColumn(u, flights) && NumericColumn(u, cancelled) && NumericColumn(u, diverted)
    requires KeepsOthers(t, u, [other]) && other != flights && other != cancelled && other != diverted
    requires CancellationDone(u, r, flights, cancelled, diverted, out)
    ensures CancellationDone(t, r, flights, cancelled, diverted, out)
  {
    if flights in t.columns && cancelled in t.columns && diverted in t.columns {
      forall i | 0 <= i < |t.rows|
        ensures CancellationCell(u.rows[i], flights, cancelled, diverted) == CancellationCell(t.rows[i], flights, cancelled, diverted)
      {
        assert u.rows[i][flights] == t.rows[i][flights];
        assert u.rows[i][cancelled] == t.rows[i][cancelled];
        assert u.rows[i][diverted] == t.rows[i][diverted];
      }
    }
  }

  /** The ratio read from `u` is that of `t` when the two steps between them changed none of its inputs. */
  lemma RatioDoneFrom2(t: Table, u: Table, r: Table, num: string, den: string, out: string, a: string, b: string)
    requires WellFormed(t) && WellFormed(u) && WellFormed(r) && |u.rows| == |t.rows| && |r.rows| == |u.rows|
    requires NumericColumn(t, num) && NumericColumn(t, den) && NumericColumn(u, num) && NumericColumn(u, den)
    requires forall c :: c in t.columns ==> c in u.columns
    requires forall i, c :: 0 <= i < |t.rows| && c in t.columns && c != a && c != b ==> u.rows[i][c] == t.rows[i][c]
    requires a != num && a != den && b != num && b != den
    requires RatioDone(u, r, num, den, out)
    ensures RatioDone(t, r, num, den, out)
  {
    if num in t.columns && den in t.columns {
      forall i | 0 <= i < |t.rows|
        ensures RatioCell(u.rows[i], num, den) == RatioCell(t.rows[i], num, den)
      {
        assert u.rows[i][num] == t.rows[i][num];
        assert u.rows[i][den] == t.rows[i][den];
      }
    }
  }

  /**
   * A ratio written on `u` is the ratio of `t` when `t` and `u` agree on the
   * measure columns it reads, and it survives later steps `v` to `r` that
   * write other columns.
   */
  lemma RatioDoneMoved(t: Table, u: Table, v: Table, r: Table, num: string, den: string, out: string, outs: seq<string>)
    requires WellFormed(t) && WellFormed(u) && WellFormed(v) && WellFormed(r)
    requires |t.rows| == |u.rows| == |v.rows| == |r.rows|
    requires NumericColumn(t, num) && NumericColumn(t, den) && NumericColumn(u, num) && NumericColumn(u, den)
    requires SameMeasures(t, u) && num in MeasureCols && den in MeasureCols
    requires RatioDone(u, v, num, den, out) && KeepsOthers(v, r, outs) && out !in outs
    ensures RatioDone(t, r, num, den, out)
  {
    if num in t.columns && den in t.columns {
      forall i | 0 <= i < |t.rows| ensures r.rows[i][out] == RatioCell(t.rows[i], num, den) {
        assert u.rows[i][num] == t.rows[i][num] && u.rows[i][den] == t.rows[i][den];
      }
    }
  }

  /** The same as `RatioDoneMoved` for the cancellation rate. */
  lemma CancellationDoneMoved(t: Table, u: Table, v: Table, r: Table, flights: string, cancelled: string, diverted: string,
                              out: string, outs: seq<string>)
    requires WellFormed(t) && WellFormed(u) && WellFormed(v) && WellFormed(r)
    requires |t.rows| == |u.rows| == |v.rows| == |r.rows|
    requires NumericColumn(t, flights) && NumericColumn(t, cancelled) && NumericColumn(t, diverted)
    requires NumericColumn(u, flights) && NumericColumn(u, cancelled) && NumericColumn(u, diverted)
    requires SameMeasures(t, u) && flights in MeasureCols && cancelled in MeasureCols && diverted in MeasureCols
    requires CancellationDone(u, v, flights, cancelled, diverted, out) && KeepsOthers(v, r, outs) && out !in outs
    ensures CancellationDone(t, r, flights, cancelled, diverted, out)
  {
    if flights in t.columns && cancelled in t.columns && diverted in t.columns {
      assert flights in u.columns && cancelled in u.columns && diverted in u.columns;
      forall i | 0 <= i < |t.rows| ensures r.rows[i][out] == CancellationCell(t.rows[i], flights, cancelled, diverted) {
        assert r.rows[i][out] == v.rows[i][out];
        CancellationCellAgrees(t.rows[i], u.rows[i], flights, cancelled, diverted);
      }
    }
  }

  /** Two rows with the same three inputs have the same cancellation rate. */
  lemma CancellationCellAgrees(a: Row, b: Row, flights: string, cancelled: string, diverted: string)
    requires flights in a && cancelled in a && diverted in a && a[flights].Num? && a[cancelled].Num? && a[diverted].Num?
    requires flights in b && b[flights] == a[flights] && cancelled in b && b[cancelled] == a[cancelled]
    requires diverted in b && b[diverted] == a[diverted]
    ensures CancellationCell(b, flights, cancelled, diverted) == CancellationCell(a, flights, cancelled, diverted)
  {
  }

  /** The five causes are distinct, and so are their share column names. */
  lemma ShareNamesDistinct(k: int, j: int)
    requires 0 <= k < |Causes| && 0 <= j < |Causes| && k != j
    ensures ShareCtCol(Causes[k]) != ShareCtCol(Causes[j]) && ShareMinCol(Causes[k]) != ShareMinCol(Causes[j])
  {
    var a, b := Causes[k], Causes[j];
    assert a != b;
    if |a| == |b| {
      assert ShareCtCol(a)[..|a|] == a && ShareCtCol(b)[..|b|] == b;
      assert ShareMinCol(a)[..|a|] == a && ShareMinCol(b)[..|b|] == b;
    } else {
      assert |ShareCtCol(a)| != |ShareCtCol(b)| && |ShareMinCol(a)| != |ShareMinCol(b)|;
    }
  }

  /** Per cause, in order: its count column, its minute column and its two share columns. */
  function CauseCountCols(): seq<string> { seq(|Causes|, k requires 0 <= k < |Causes| => CountCol(Causes[k])) }
  function CauseDelayCols(): seq<string> { seq(|Causes|, k requires 0 <= k < |Causes| => DelayCol(Causes[k])) }
  function ShareCtCols(): seq<string> { seq(|Causes|, k requires 0 <= k < |Causes| => ShareCtCol(Causes[k])) }
  function ShareMinCols(): seq<string> { seq(|Causes|, k requires 0 <= k < |Causes| => ShareMinCol(Causes[k])) }

  /**
   * A share loop writes distinct columns `outs[k]`, none of which is one of
   * the columns `parts` and `whole` it reads.
   */
  predicate ShareNames(parts: seq<string>, whole: string, outs: seq<string>) {
    |parts| == |outs| && Distinct(outs) &&
    forall k :: 0 <= k < |outs| ==> outs[k] != whole && outs[k] !in parts
  }

  /** The columns a share loop reads are numeric. */
  predicate ShareInputsNumeric(t: Table, parts: seq<string>, whole: string)
    requires WellFormed(t)
  {
    NumericColumn(t, whole) && forall k :: 0 <= k < |parts| ==> NumericColumn(t, parts[k])
  }

  /** Both share loops of the script satisfy `ShareNames`, read measure columns and write other ones. */
  lemma CauseShareNames()
    ensures ShareNames(CauseCountCols(), "arr_del15", ShareCtCols())
    ensures ShareNames(CauseDelayCols(), "arr_delay", ShareMinCols())
    ensures "arr_del15" in MeasureCols && "arr_delay" in MeasureCols
    ensures forall k :: 0 <= k < |Causes| ==> CauseCountCols()[k] in MeasureCols && CauseDelayCols()[k] in MeasureCols
    ensures forall k :: 0 <= k < |Causes| ==> ShareCtCols()[k] !in MeasureCols && ShareMinCols()[k] !in MeasureCols
  {
    assert MeasureCols[1] == "arr_del15" && MeasureCols[9] == "arr_delay";
    forall k | 0 <= k < |Causes|
      ensures CauseCountCols()[k] in MeasureCols && ShareCtCols()[k] !in MeasureCols
      ensures CauseDelayCols()[k] in MeasureCols && ShareMinCols()[k] !in MeasureCols
    {
      CauseColumnsAreMeasures(k);
      ShareNamesNotMeasures(k);
    }
    forall k, j | 0 <= k < j < |Causes|
      ensures ShareCtCols()[k] != ShareCtCols()[j] && ShareMinCols()[k] != ShareMinCols()[j]
    {
      ShareNamesDistinct(k, j);
    }
  }

  /**
   * Every share among the first `n` whose inputs `t` has is a column of `r`
   * holding, row by row, part / whole (missing where `whole` is 0).
   */
  predicate SharesDone(t: Table, r: Table, parts: seq<string>, whole: string, outs: seq<string>, n: nat)
    requires WellFormed(t) && WellFormed(r) && |r.rows| == |t.rows| && |parts| == |outs|
    requires ShareInputsNumeric(t, parts, whole) && n <= |parts|
  {
    forall k :: 0 <= k < n && parts[k] in t.columns && whole in t.columns ==>
      outs[k] in r.columns && forall i :: 0 <= i < |t.rows| ==> r.rows[i][outs[k]] == RatioCell(t.rows[i], parts[k], whole)
  }

  /**
   * The loops of lines 102-105 and 108-111, over their first `n` causes:
   * `df[outs[k]] = safe_div(df[parts[k]], df[whole])` whenever the table
   * has both `parts[k]` and `whole`. Only the columns `outs` change.
   */
  function ShareColumns(t: Table, parts: seq<string>, whole: string, outs: seq<string>, n: nat): (r: Table)
    requires WellFormed(t) && ShareNames(parts, whole, outs) && ShareInputsNumeric(t, parts, whole) && n <= |parts|
    ensures WellFormed(r) && |r.rows| == |t.rows|
    ensures forall c :: c in t.columns ==> c in r.columns
    ensures forall c :: c in r.columns ==> c in t.columns || c in outs
    ensures forall i, c :: 0 <= i < |t.rows| && c in t.columns && c !in outs ==> r.rows[i][c] == t.rows[i][c]
    ensures SharesDone(t, r, parts, whole, outs, n)
  {
    if n == 0 then t
    else
      var u := ShareColumns(t, parts, whole, outs, n - 1);
      ShareColumnsKeepInputs(t, parts, whole, outs, u);
      var r := RatioColumn(u, parts[n - 1], whole, outs[n - 1]);
      ShareStep(t, u, parts, whole, outs, n);
      r
  }

  /** A table that differs from `t` only in the columns `outs` still has numeric share inputs. */
  lemma ShareColumnsKeepInputs(t: Table, parts: seq<string>, whole: string, outs: seq<string>, u: Table)
    requires WellFormed(t) && WellFormed(u) && |u.rows| == |t.rows|
    requires ShareNames(parts, whole, outs) && ShareInputsNumeric(t, parts, whole)
    requires forall c :: c in t.columns ==> c in u.columns
    requires forall c :: c in u.columns ==> c in t.columns || c in outs
    requires forall i, c :: 0 <= i < |t.rows| && c in t.columns && c !in outs ==> u.rows[i][c] == t.rows[i][c]
    ensures ShareInputsNumeric(u, parts, whole)
  {
    assert whole !in outs;
    forall k | 0 <= k < |parts| ensures NumericColumn(u, parts[k]) {
      assert parts[k] !in outs;
      assert NumericColumn(t, parts[k]);
    }
  }

  /** One more turn of a share loop writes (or skips) exactly the next share. */
  lemma ShareColumnsNext(t: Table, parts: seq<string>, whole: string, outs: seq<string>, k: nat, u: Table)
    requires WellFormed(t) && ShareNames(parts, whole, outs) && ShareInputsNumeric(t, parts, whole) && k < |parts|
    requires u == ShareColumns(t, parts, whole, outs, k)
    ensures NumericColumn(u, parts[k]) && NumericColumn(u, whole)
    ensures ShareColumns(t, parts, whole, outs, k + 1) ==
              if parts[k] in u.columns && whole in u.columns then SetColumn(u, outs[k], RatioCells(u, parts[k], whole)) else u
  {
    ShareColumnsKeepInputs(t, parts, whole, outs, u);
  }

  /** The share written at step `n` joins those written before it, which it leaves alone. */
  lemma ShareStep(t: Table, u: Table, parts: seq<string>, whole: string, outs: seq<string>, n: nat)
    requires WellFormed(t) && WellFormed(u) && |u.rows| == |t.rows|
    requires ShareNames(parts, whole, outs) && ShareInputsNumeric(t, parts, whole) && 0 < n <= |parts|
    requires ShareInputsNumeric(u, parts, whole)
    requires forall c :: c in t.columns ==> c in u.columns
    requires forall i, c :: 0 <= i < |t.rows| && c in t.columns && c !in outs ==> u.rows[i][c] == t.rows[i][c]
    requires SharesDone(t, u, parts, whole, outs, n - 1)
    ensures SharesDone(t, RatioColumn(u, parts[n - 1], whole, outs[n - 1]), parts, whole, outs, n)
  {
    var r := RatioColumn(u, parts[n - 1], whole, outs[n - 1]);
    forall k | 0 <= k < n && parts[k] in t.columns && whole in t.columns
      ensures outs[k] in r.columns && forall i :: 0 <= i < |t.rows| ==> r.rows[i][outs[k]] == RatioCell(t.rows[i], parts[k], whole)
    {
      if k < n - 1 {
        assert outs[k] != outs[n - 1];
        EarlierShareKept(u, parts[n - 1], whole, outs[n - 1], outs[k]);
      } else {
        assert parts[k] !in outs && whole !in outs;
        assert NumericColumn(t, parts[k]);
        LastShareSpec(t, u, parts[k], whole, outs[k]);
      }
    }
  }

  /** A ratio column leaves every other column, such as an earlier share, as it was. */
  lemma EarlierShareKept(u: Table, part: string, whole: string, out: string, other: string)
    requires WellFormed(u) && NumericColumn(u, part) && NumericColumn(u, whole)
    requires other in u.columns && other != out
    ensures other in RatioColumn(u, part, whole, out).columns
    ensures forall i :: 0 <= i < |u.rows| ==> RatioColumn(u, part, whole, out).rows[i][other] == u.rows[i][other]
  {
  }

  /** The share written last reads its inputs from the table before the loop. */
  lemma LastShareSpec(t: Table, u: Table, part: string, whole: string, out: string)
    requires WellFormed(t) && WellFormed(u) && |u.rows| == |t.rows|
    requires part in t.columns && whole in t.columns && NumericColumn(t, part) && NumericColumn(t, whole)
    requires part in u.columns && whole in u.columns
    requires forall i :: 0 <= i < |t.rows| ==> u.rows[i][part] == t.rows[i][part] && u.rows[i][whole] == t.rows[i][whole]
    ensures NumericColumn(u, part) && NumericColumn(u, whole)
    ensures forall i :: 0 <= i < |t.rows| ==> RatioColumn(u, part, whole, out).rows[i][out] == RatioCell(t.rows[i], part, whole)
  {
  }

  /** A table that differs from `t` only in non-measure columns `outs` agrees with it on the measures. */
  lemma OnlyOutsChanged(t: Table, r: Table, outs: seq<string>)
    requires WellFormed(t) && WellFormed(r) && |r.rows| == |t.rows|
    requires forall c :: c in t.columns ==> c in r.columns
    requires forall c :: c in r.columns ==> c in t.columns || c in outs
    requires forall i, c :: 0 <= i < |t.rows| && c in t.columns && c !in outs ==> r.rows[i][c] == t.rows[i][c]
    requires forall k :: 0 <= k < |outs| ==> outs[k] !in MeasureCols
    ensures SameMeasures(t, r)
  {
    forall c | c in MeasureCols
      ensures (c in t.columns <==> c in r.columns)
      ensures c in t.columns ==> forall i :: 0 <= i < |t.rows| ==> r.rows[i][c] == t.rows[i][c]
    {
      assert c !in outs;
    }
  }

  /** A count-share name never equals a minute-share name: they end in 't' and 'n'. */
  lemma CountAndMinuteSharesDiffer(a: string, b: string)
    ensures ShareCtCol(a) != ShareMinCol(b)
  {
    assert ShareCtCol(a)[|ShareCtCol(a)| - 1] == 't';
    assert ShareMinCol(b)[|ShareMinCol(b)| - 1] == 'n';
  }

  /** Shares already written survive later assignments to other columns. */
  lemma SharesDoneKept(t: Table, r: Table, r2: Table, parts: seq<string>, whole: string, outs: seq<string>, n: nat, others: seq<string>)
    requires WellFormed(t) && WellFormed(r) && WellFormed(r2) && |r.rows| == |t.rows| == |r2.rows| && |parts| == |outs|
    requires ShareInputsNumeric(t, parts, whole) && n <= |parts|
    requires SharesDone(t, r, parts, whole, outs, n)
    requires forall c :: c in r.columns ==> c in r2.columns
    requires forall i, c :: 0 <= i < |r.rows| && c in r.columns && c !in others ==> r2.rows[i][c] == r.rows[i][c]
    requires forall k :: 0 <= k < |outs| ==> outs[k] !in others
    ensures SharesDone(t, r2, parts, whole, outs, n)
  {
    forall k | 0 <= k < n && parts[k] in t.columns && whole in t.columns
      ensures outs[k] in r2.columns && forall i :: 0 <= i < |t.rows| ==> r2.rows[i][outs[k]] == RatioCell(t.rows[i], parts[k], whole)
    {
      assert outs[k] in r.columns && outs[k] !in others;
    }
  }

  /** Shares computed from a table that agrees with `t` on their inputs are the shares of `t`. */
  lemma SharesDoneTransfer(t: Table, t2: Table, r: Table, parts: seq<string>, whole: string, outs: seq<string>, n: nat)
    requires WellFormed(t) && WellFormed(t2) && WellFormed(r) && |t.rows| == |t2.rows| == |r.rows| && |parts| == |outs|
    requires ShareInputsNumeric(t, parts, whole) && ShareInputsNumeric(t2, parts, whole) && n <= |parts|
    requires SameMeasures(t, t2) && whole in MeasureCols && forall k :: 0 <= k < |parts| ==> parts[k] in MeasureCols
    requires SharesDone(t2, r, parts, whole, outs, n)
    ensures SharesDone(t, r, parts, whole, outs, n)
  {
    forall k | 0 <= k < n && parts[k] in t.columns && whole in t.columns
      ensures outs[k] in r.columns && forall i :: 0 <= i < |t.rows| ==> r.rows[i][outs[k]] == RatioCell(t.rows[i], parts[k], whole)
    {
      assert parts[k] in MeasureCols;
      assert parts[k] in t2.columns && whole in t2.columns;
      forall i | 0 <= i < |t.rows| ensures RatioCell(t2.rows[i], parts[k], whole) == RatioCell(t.rows[i], parts[k], whole) {
        assert t2.rows[i][parts[k]] == t.rows[i][parts[k]] && t2.rows[i][whole] == t.rows[i][whole];
      }
    }
  }

  /** The measure columns the share loops read are numeric wherever the measure columns are. */
  lemma ShareInputsOfNumeric(t: Table)
    requires WellFormed(t) && Numeric(t)
    ensures ShareInputsNumeric(t, CauseCountCols(), "arr_del15") && ShareInputsNumeric(t, CauseDelayCols(), "arr_delay")
  {
    CauseShareNames();
  }

  /**
   * Lines 101-111: the count-based shares, then the minute-based shares,
   * each computed from the table's measure columns.
   */
  function AddShares(t: Table): (r: Table)
    requires WellFormed(t) && Numeric(t)
    ensures WellFormed(r) && |r.rows| == |t.rows| && SameMeasures(t, r)
    ensures ShareInputsNumeric(t, CauseCountCols(), "arr_del15") && ShareInputsNumeric(t, CauseDelayCols(), "arr_delay")
    ensures SharesDone(t, r, CauseCountCols(), "arr_del15", ShareCtCols(), |Causes|)
    ensures SharesDone(t, r, CauseDelayCols(), "arr_delay", ShareMinCols(), |Causes|)
    ensures KeepsOthers(t, r, ShareCtCols() + ShareMinCols())
  {
    CauseShareNames();
    ShareInputsOfNumeric(t);
    var counted := ShareColumns(t, CauseCountCols(), "arr_del15", ShareCtCols(), |Causes|);
    OnlyOutsChanged(t, counted, ShareCtCols());
    SameMeasuresKeepsNumeric(t, counted);
    assert ShareInputsNumeric(counted, CauseDelayCols(), "arr_delay");
    var r := ShareColumns(counted, CauseDelayCols(), "arr_delay", ShareMinCols(), |Causes|);
    OnlyOutsChanged(counted, r, ShareMinCols());
    SameMeasuresTrans(t, counted, r);
    forall k | 0 <= k < |Causes| ensures ShareCtCols()[k] !in ShareMinCols() {
      forall j | 0 <= j < |Causes| ensures ShareCtCols()[k] != ShareMinCols()[j] {
        CountAndMinuteSharesDiffer(Causes[k], Causes[j]);
      }
    }
    SharesDoneKept(t, counted, r, CauseCountCols(), "arr_del15", ShareCtCols(), |Causes|, ShareMinCols());
    SharesDoneTransfer(t, counted, r, CauseDelayCols(), "arr_delay", ShareMinCols(), |Causes|);
    KeepsOthersTrans(t, counted, r, ShareCtCols(), ShareMinCols());
    r
  }

  // ===== Step 5: the cause-count quality flag and its counter (lines 117-123) =====

  /** Left-to-right sum, as `sum(axis=1)` adds the five cause counts. */
  function Sum(xs: seq<real>): real {
    if xs == [] then 0.0 else Sum(xs[..|xs| - 1]) + xs[|xs| - 1]
  }

  /** A row whose five cause counts and arr_del15 are numbers. */
  predicate FlagReadable(row: Row) {
    "arr_del15" in row && row["arr_del15"].Num? &&
    forall k :: 0 <= k < |Causes| ==> CauseCountCols()[k] in row && row[CauseCountCols()[k]].Num?
  }

  /** The row's five cause counts, in the order of `Causes`. */
  function CauseCounts(row: Row): (xs: seq<real>)
    requires FlagReadable(row)
    ensures |xs| == |Causes|
  {
    seq(|Causes|, k requires 0 <= k < |Causes| => row[CauseCountCols()[k]].val)
  }

  /** `cause_sum > df["arr_del15"]` for one row. */
  predicate FlagRow(row: Row)
    requires FlagReadable(row)
  {
    Sum(CauseCounts(row)) > row["arr_del15"].val
  }

  /** The table has every column of `req` (line 119). */
  predicate FlagInputsPresent(t: Table) {
    "arr_del15" in t.columns && forall k :: 0 <= k < |Causes| ==> CauseCountCols()[k] in t.columns
  }

  /** With its inputs present and numeric, every row can be flagged. */
  lemma FlagRowsReadable(t: Table)
    requires WellFormed(t) && Numeric(t) && FlagInputsPresent(t)
    ensures forall i :: 0 <= i < |t.rows| ==> FlagReadable(t.rows[i])
  {
    CauseShareNames();
    assert NumericColumn(t, "arr_del15");
    assert forall k :: 0 <= k < |Causes| ==> NumericColumn(t, CauseCountCols()[k]);
  }

  /** The flag of every row. */
  function Flags(t: Table): (f: seq<bool>)
    requires WellFormed(t) && Numeric(t) && FlagInputsPresent(t)
    ensures |f| == |t.rows|
    ensures forall i :: 0 <= i < |t.rows| ==> FlagReadable(t.rows[i]) && (f[i] <==> FlagRow(t.rows[i]))
  {
    FlagRowsReadable(t);
    seq(|t.rows|, i requires 0 <= i < |t.rows| => FlagRow(t.rows[i]))
  }

  /** `int(flags.sum())`: how many flags are set. */
  function CountTrue(flags: seq<bool>): (n: nat)
    ensures n <= |flags|
  {
    if flags == [] then 0 else CountTrue(flags[..|flags| - 1]) + (if flags[|flags| - 1] then 1 else 0)
  }

  /** The counter is the number of flagged positions. */
  lemma {:induction false} CountTrueIsCardinality(flags: seq<bool>)
    ensures CountTrue(flags) == |set i | 0 <= i < |flags| && flags[i]|
  {
    if flags != [] {
      var n := |flags| - 1;
      var init := flags[..n];
      CountTrueIsCardinality(init);
      var before := set i | 0 <= i < n && init[i];
      var after := set i | 0 <= i < |flags| && flags[i];
      if flags[n] {
        assert after == before + {n};
        assert n !in before;
      } else {
        assert after == before;
      }
    }
  }

  /**
   * Lines 119-123: when the table has all of `req`, the column
   * "cause_counts_exceed_delayed_flag" holds each row's flag and the check
   * "rows_where_cause_counts_exceed_delayed" counts the flagged rows;
   * otherwise neither the table nor the checks change.
   */
  function FlagStep(t: Table, checks: map<string, int>): (r: (Table, map<string, int>))
    requires WellFormed(t) && Numeric(t)
    ensures WellFormed(r.0) && |r.0.rows| == |t.rows| && SameMeasures(t, r.0)
    ensures FlagInputsPresent(t) ==>
              FlagCol in r.0.columns && r.1 == checks[FlagCheck := CountTrue(Flags(t))] &&
              forall i :: 0 <= i < |t.rows| ==> r.0.rows[i][FlagCol] == Flag(Flags(t)[i])
    ensures !FlagInputsPresent(t) ==> r == (t, checks)
    ensures KeepsOthers(t, r.0, [FlagCol])
  {
    if FlagInputsPresent(t) then
      var flags := Flags(t);
      KpiNamesNotMeasures(FlagCol);
      var u := SetColumn(t, FlagCol, FlagCells(flags));
      SetColumnSameMeasures(t, FlagCol, FlagCells(flags));
      SetColumnKeepsOthers(t, FlagCol, FlagCells(flags));
      (u, checks[FlagCheck := CountTrue(flags)])
    else (t, checks)
  }

  /** The flags as cells of the boolean column. */
  function FlagCells(flags: seq<bool>): seq<Cell> {
    seq(|flags|, i requires 0 <= i < |flags| => Flag(flags[i]))
  }

  /** Scaling each summand scales the sum. */
  lemma {:induction false} SumOfQuotients(xs: seq<real>, qs: seq<real>, d: real)
    requires |qs| == |xs| && forall k :: 0 <= k < |xs| ==> qs[k] * d == xs[k]
    ensures Sum(qs) * d == Sum(xs)
  {
    if xs != [] {
      var n := |xs| - 1;
      SumOfQuotients(xs[..n], qs[..n], d);
      calc {
        Sum(qs) * d;
        (Sum(qs[..n]) + qs[n]) * d;
        Sum(qs[..n]) * d + qs[n] * d;
        Sum(xs[..n]) + xs[n];
      }
    }
  }

  /** The row's five count-based cause shares (lines 102-105), as values. */
  function CountShareValues(row: Row): (shares: seq<real>)
    requires FlagReadable(row) && row["arr_del15"].val != 0.0
    ensures |shares| == |Causes|
    ensures forall k :: 0 <= k < |Causes| ==> RatioCell(row, CauseCountCols()[k], "arr_del15") == Num(shares[k])
  {
    seq(|Causes|, k requires 0 <= k < |Causes| => RatioCell(row, CauseCountCols()[k], "arr_del15").val)
  }

  /**
   * For a row with delayed flights, the flag is set exactly when the five
   * count-based cause shares add up to more than 1.
   */
  lemma FlagIffSharesExceedOne(row: Row)
    requires FlagReadable(row) && row["arr_del15"].val > 0.0
    ensures FlagRow(row) <==> Sum(CountShareValues(row)) > 1.0
  {
    var d := row["arr_del15"].val;
    var xs := CauseCounts(row);
    var shares := CountShareValues(row);
    forall k | 0 <= k < |Causes| ensures shares[k] * d == xs[k] {
      assert SafeDiv(xs[k], d).value == shares[k];
    }
    SumOfQuotients(xs, shares, d);
    assert FlagRow(row) <==> Sum(xs) > d;
    var total := Sum(shares);
    assert total * d - d == (total - 1.0) * d;
    if total > 1.0 {
      PositiveProduct(total - 1.0, d);
    } else {
      PositiveProduct(1.0 - total, d);
      assert (1.0 - total) * d == d - total * d;
    }
  }

  lemma PositiveProduct(a: real, b: real)
    requires a >= 0.0 && b > 0.0
    ensures a * b >= 0.0 && (a > 0.0 ==> a * b > 0.0)
  {
  }
}
