/**
 * The whole cleaning run of src/cleaning_pipeline.py:48-123 as one function
 * from the loaded table to the cleaned table and its quality checks, and
 * what the run as a whole guarantees.
 */
module Pipeline {
  import opened Wrappers
  import opened Columns
  import opened Steps
  import SnakeCase

  /**
   * Lines 48-123 in order: standardise the headers, coerce the measure
   * columns, cast year and month, add the period columns, the three rates,
   * the cause shares and the quality flag, starting from empty checks.
   * `None` when the script raises (a cast at line 73 or line 82).
   */
  function Clean(t: Table): (r: Option<(Table, map<string, int>)>)
    requires WellFormed(t) && Distinct(SnakeCase.SnakeHeaders(t.columns))
    ensures r.Some? ==> WellFormed(r.value.0) && |r.value.0.rows| == |t.rows|
    ensures r.Some? ==> SameMeasures(CoerceColumns(Standardize(t), MeasureCols), r.value.0)
    ensures r.Some? ==> r.value.1.Keys <= {FlagCheck}
    ensures r.Some? ==> (FlagCheck in r.value.1 <==> FlagInputsPresent(Standardize(t)))
  {
    var named := Standardize(t);
    var coerced := CoerceColumns(named, MeasureCols);
    CoercedMeasuresNumeric(named);
    match CastPeriodFields(coerced, 2)
    case None => None
    case Some(cast) =>
      CastPeriodFieldsSameMeasures(coerced);
      SameMeasuresKeepsNumeric(coerced, cast);
      match Features(cast)
      case None => None
      case Some(done) =>
        SameMeasuresTrans(coerced, cast, done.0);
        FlagInputsSame(named, coerced);
        FlagInputsSame(coerced, cast);
        Some(done)
  }

  /**
   * Lines 77-123 on the table after the casts: the period columns, the
   * three rates, the cause shares and the quality flag, starting from
   * empty checks; `None` when line 82 raises.
   */
  function Features(cast: Table): (r: Option<(Table, map<string, int>)>)
    requires WellFormed(cast) && Numeric(cast)
    ensures r.None? <==> AddPeriod(cast).None?
    ensures r.Some? ==> WellFormed(r.value.0) && |r.value.0.rows| == |cast.rows| && SameMeasures(cast, r.value.0)
    ensures r.Some? ==> r.value.1.Keys <= {FlagCheck}
    ensures r.Some? ==> (FlagCheck in r.value.1 <==> FlagInputsPresent(cast))
  {
    match AddPeriod(cast)
    case None => None
    case Some(dated) =>
      AddPeriodSameMeasures(cast);
      SameMeasuresKeepsNumeric(cast, dated);
      var rated := AddRates(dated);
      SameMeasuresKeepsNumeric(dated, rated);
      SameMeasuresTrans(cast, dated, rated);
      var shared := AddShares(rated);
      SameMeasuresKeepsNumeric(rated, shared);
      SameMeasuresTrans(cast, rated, shared);
      var flagged := FlagStep(shared, map[]);
      SameMeasuresTrans(cast, shared, flagged.0);
      FlagInputsSame(cast, shared);
      Some(flagged)
  }

  /** Tables with the same measure columns have the same flag inputs. */
  lemma FlagInputsSame(t: Table, r: Table)
    requires WellFormed(t) && WellFormed(r) && |t.rows| == |r.rows|
    requires (forall c :: c in MeasureCols ==> (c in t.columns <==> c in r.columns))
    ensures FlagInputsPresent(t) <==> FlagInputsPresent(r)
  {
    CauseShareNames();
  }

  /** Tables that agree on the measure columns flag the same rows. */
  lemma FlagsSame(t: Table, r: Table)
    requires WellFormed(t) && WellFormed(r) && |t.rows| == |r.rows| && Numeric(t) && Numeric(r)
    requires SameMeasures(t, r) && FlagInputsPresent(t)
    ensures FlagInputsPresent(r) && Flags(t) == Flags(r)
  {
    FlagInputsSame(t, r);
    CauseShareNames();
    forall i | 0 <= i < |t.rows| ensures Flags(t)[i] == Flags(r)[i] {
      assert CauseCounts(t.rows[i]) == CauseCounts(r.rows[i]);
    }
  }

  /**
   * The run raises exactly when, after standardisation, a year or month
   * holds a number with a fractional part or a whole number outside the
   * Int64 range (the Int64 cast at line 73), or
   * the table has both year and month and one of them is missing or not a
   * number in some row (`astype("int")` on <NA> at line 82).
   */
  predicate Raises(named: Table)
    requires WellFormed(named)
  {
    (exists i, c :: 0 <= i < |named.rows| && c in PeriodFields && c in named.columns && ToInt64(named.rows[i][c]).None?) ||
    ("year" in named.columns && "month" in named.columns &&
     exists i :: 0 <= i < |named.rows| &&
       (ToNumeric(named.rows[i]["year"]).None? || ToNumeric(named.rows[i]["month"]).None?))
  }

  lemma CleanFailsIff(t: Table)
    requires WellFormed(t) && Distinct(SnakeCase.SnakeHeaders(t.columns))
    ensures Clean(t).None? <==> Raises(Standardize(t))
  {
    var named := Standardize(t);
    var coerced := CoerceColumns(named, MeasureCols);
    CoerceColumnsSpec(named, MeasureCols);
    PeriodNamesNotMeasures("year");
    PeriodNamesNotMeasures("month");
    RaisesReadsPeriodFields(named, coerced);
    CastsFailIff(coerced);
  }

  /** Whether a table raises depends only on its year and month cells. */
  lemma RaisesReadsPeriodFields(t: Table, u: Table)
    requires WellFormed(t) && WellFormed(u) && u.columns == t.columns && |u.rows| == |t.rows|
    requires forall i, c :: 0 <= i < |t.rows| && c in t.columns && c !in MeasureCols ==> u.rows[i][c] == t.rows[i][c]
    requires "year" !in MeasureCols && "month" !in MeasureCols
    ensures Raises(t) <==> Raises(u)
  {
    assert forall i, c :: 0 <= i < |t.rows| && c in PeriodFields && c in t.columns ==> u.rows[i][c] == t.rows[i][c];
  }

  /** The two casts (lines 73 and 82) fail exactly when `Raises` holds. */
  lemma CastsFailIff(u: Table)
    requires WellFormed(u)
    ensures (CastPeriodFields(u, 2).None? || AddPeriod(CastPeriodFields(u, 2).value).None?) <==> Raises(u)
  {
    CastPeriodFieldsSpec(u, 2);
    assert PeriodFields[..2] == PeriodFields;
    if CastPeriodFields(u, 2).Some? {
      PeriodCastFailsIff(u, CastPeriodFields(u, 2).value);
    }
  }

  /** After successful Int64 casts, line 82 raises exactly when a year or month is <NA>. */
  lemma PeriodCastFailsIff(u: Table, cast: Table)
    requires WellFormed(u) && CastPeriodFields(u, 2) == Some(cast)
    ensures AddPeriod(cast).None? <==>
              "year" in u.columns && "month" in u.columns &&
              exists i :: 0 <= i < |u.rows| && (ToNumeric(u.rows[i]["year"]).None? || ToNumeric(u.rows[i]["month"]).None?)
  {
    AddPeriodFailsIff(cast);
    if "year" in u.columns && "month" in u.columns {
      forall i | 0 <= i < |u.rows|
        ensures (cast.rows[i]["year"].Int? && cast.rows[i]["month"].Int?) <==>
                (ToNumeric(u.rows[i]["year"]).Some? && ToNumeric(u.rows[i]["month"]).Some?)
      {
        CastCell(u, cast, i, "year");
        CastCell(u, cast, i, "month");
      }
    }
  }

  /** One year or month cell after the casts of lines 71-73. */
  lemma CastCell(u: Table, cast: Table, i: int, c: string)
    requires WellFormed(u) && CastPeriodFields(u, 2) == Some(cast)
    requires 0 <= i < |u.rows| && c in PeriodFields && c in u.columns
    ensures ToInt64(u.rows[i][c]).Some? && cast.rows[i][c] == ToInt64(u.rows[i][c]).value
  {
    CastPeriodFieldsSpec(u, 2);
    assert PeriodFields[..2] == PeriodFields;
  }

  /**
   * Each measure column is in `r` exactly when it is in `named`, and holds
   * the coerced values of `named`'s column.
   */
  predicate MeasuresCoerced(named: Table, r: Table)
    requires WellFormed(named) && WellFormed(r) && |named.rows| == |r.rows|
  {
    ColumnsCoerced(named, r, MeasureCols)
  }

  /** Each column of `cols` is in `r` exactly when it is in `t`, and holds the coerced values of `t`'s column. */
  predicate ColumnsCoerced(t: Table, r: Table, cols: seq<string>)
    requires WellFormed(t) && WellFormed(r) && |t.rows| == |r.rows|
  {
    forall c :: c in cols ==>
      (c in r.columns <==> c in t.columns) &&
      (c in t.columns ==> forall i :: 0 <= i < |r.rows| ==> r.rows[i][c] == Coerce(t.rows[i][c]))
  }

  /** Each column of `cols` is in `r` exactly when it is in `t`, with the same cells. */
  predicate SameColumns(t: Table, r: Table, cols: seq<string>)
    requires WellFormed(t) && WellFormed(r) && |t.rows| == |r.rows|
  {
    forall c :: c in cols ==>
      (c in t.columns <==> c in r.columns) &&
      (c in t.columns ==> forall i :: 0 <= i < |t.rows| ==> r.rows[i][c] == t.rows[i][c])
  }

  /**
   * A run that does not raise keeps every row and leaves each measure
   * column as the coercion made it: a number in every cell, 0 for a
   * missing or unparseable one.
   */
  lemma CleanMeasures(t: Table, r: Table, checks: map<string, int>)
    requires WellFormed(t) && Distinct(SnakeCase.SnakeHeaders(t.columns)) && Clean(t) == Some((r, checks))
    ensures WellFormed(r) && |r.rows| == |t.rows|
    ensures MeasuresCoerced(Standardize(t), r)
  {
    var named := Standardize(t);
    var coerced := CoerceColumns(named, MeasureCols);
    assert SameColumns(coerced, r, MeasureCols);
    CoercedKeptAt(named, coerced, r, MeasureCols);
  }

  /** A table with the same columns `cols` as the coerced `named` holds `named`'s coerced values there. */
  lemma CoercedKeptAt(named: Table, coerced: Table, r: Table, cols: seq<string>)
    requires WellFormed(named) && coerced == CoerceColumns(named, cols)
    requires WellFormed(r) && |r.rows| == |named.rows| && SameColumns(coerced, r, cols)
    ensures ColumnsCoerced(named, r, cols)
  {
    CoerceColumnsSpec(named, cols);
    forall c | c in cols && c in named.columns
      ensures forall i :: 0 <= i < |r.rows| ==> r.rows[i][c] == Coerce(named.rows[i][c])
    {
      forall i | 0 <= i < |r.rows| ensures r.rows[i][c] == Coerce(named.rows[i][c]) {
        assert r.rows[i][c] == coerced.rows[i][c];
      }
    }
  }

  /**
   * The checks of a run that does not raise: the only entry is the number
   * of rows whose five cause counts add up to more than arr_del15 (the
   * counts as coerced), present exactly when the table has those columns.
   */
  lemma CleanChecks(t: Table, r: Table, checks: map<string, int>)
    requires WellFormed(t) && Distinct(SnakeCase.SnakeHeaders(t.columns)) && Clean(t) == Some((r, checks))
    ensures Numeric(CoerceColumns(Standardize(t), MeasureCols))
    ensures FlagCheck in checks <==> FlagInputsPresent(CoerceColumns(Standardize(t), MeasureCols))
    ensures FlagCheck in checks ==>
              checks[FlagCheck] == CountTrue(Flags(CoerceColumns(Standardize(t), MeasureCols))) <= |t.rows|
  {
    var named, coerced, cast, dated, rated, shared := CleanStages(t, r, checks);
    FlagInputsSame(coerced, shared);
    if FlagInputsPresent(coerced) {
      FlagsSame(coerced, shared);
    }
  }

  /**
   * The flag column of a run that does not raise: when the table has the
   * `req` columns, each row's flag says whether its coerced cause counts add
   * up to more than its coerced arr_del15.
   */
  lemma CleanFlags(t: Table, r: Table, checks: map<string, int>)
    requires WellFormed(t) && Distinct(SnakeCase.SnakeHeaders(t.columns)) && Clean(t) == Some((r, checks))
    ensures WellFormed(r) && |r.rows| == |t.rows| && Numeric(CoerceColumns(Standardize(t), MeasureCols))
    ensures FlagInputsPresent(CoerceColumns(Standardize(t), MeasureCols)) ==>
              FlagCol in r.columns &&
              forall i :: 0 <= i < |t.rows| ==> r.rows[i][FlagCol] == Flag(Flags(CoerceColumns(Standardize(t), MeasureCols))[i])
  {
    var named, coerced, cast, dated, rated, shared := CleanStages(t, r, checks);
    FlagInputsSame(coerced, shared);
    if FlagInputsPresent(coerced) {
      FlagsSame(coerced, shared);
    }
  }

  /** The columns lines 88-123 write: the three rates, the ten cause shares and the flag. */
  function KpiCols(): seq<string> {
    RateCols + (ShareCtCols() + ShareMinCols()) + [FlagCol]
  }

  /** Every column the run writes: the measures, year and month, the two period columns and `KpiCols`. */
  function Written(): seq<string> {
    MeasureCols + PeriodFields + [YearMonthCol, KeyCol] + KpiCols()
  }

  /** The columns lines 88-123 write are neither measure nor period columns. */
  lemma KpiColsAreNew(o: string)
    requires o in KpiCols()
    ensures o !in MeasureCols && o != "year" && o != "month" && o != YearMonthCol && o != KeyCol
  {
    if o in ShareCtCols() {
      var k :| 0 <= k < |Causes| && o == ShareCtCol(Causes[k]);
      ShareNamesNotMeasures(k);
    } else if o in ShareMinCols() {
      var k :| 0 <= k < |Causes| && o == ShareMinCol(Causes[k]);
      ShareNamesNotMeasures(k);
    } else {
      KpiNamesNotMeasures(o);
    }
  }

  /** No rate column is a share or the flag column, and the flag column is no share. */
  lemma RateColsNotLater(o: string)
    requires o in RateCols
    ensures o !in ShareCtCols() + ShareMinCols() + [FlagCol] && FlagCol !in ShareCtCols() + ShareMinCols()
  {
    assert o[|o| - 2] != 'c' && o[|o| - 1] != 'n' && o != FlagCol;
    forall k | 0 <= k < |Causes|
      ensures ShareCtCol(Causes[k])[|ShareCtCol(Causes[k])| - 2] == 'c'
      ensures ShareMinCol(Causes[k])[|ShareMinCol(Causes[k])| - 1] == 'n'
    {
    }
    assert FlagCol[|FlagCol| - 1] == 'g';
  }

  /**
   * The intermediate tables of a run that does not raise, as `Clean`
   * computes them one step after the other.
   */
  lemma CleanStages(t: Table, r: Table, checks: map<string, int>)
    returns (named: Table, coerced: Table, cast: Table, dated: Table, rated: Table, shared: Table)
    requires WellFormed(t) && Distinct(SnakeCase.SnakeHeaders(t.columns)) && Clean(t) == Some((r, checks))
    ensures named == Standardize(t) && coerced == CoerceColumns(named, MeasureCols) && Numeric(coerced)
    ensures CastPeriodFields(coerced, 2) == Some(cast) && Numeric(cast) && SameMeasures(coerced, cast)
    ensures AddPeriod(cast) == Some(dated) && Numeric(dated) && SameMeasures(coerced, dated)
    ensures rated == AddRates(dated) && Numeric(rated) && SameMeasures(coerced, rated)
    ensures shared == AddShares(rated) && Numeric(shared) && SameMeasures(coerced, shared)
    ensures (r, checks) == FlagStep(shared, map[])
  {
    named := Standardize(t);
    coerced := CoerceColumns(named, MeasureCols);
    CoercedMeasuresNumeric(named);
    cast := CastPeriodFields(coerced, 2).value;
    CastPeriodFieldsSameMeasures(coerced);
    SameMeasuresKeepsNumeric(coerced, cast);
    dated := AddPeriod(cast).value;
    AddPeriodSameMeasures(cast);
    SameMeasuresKeepsNumeric(cast, dated);
    SameMeasuresTrans(coerced, cast, dated);
    rated := AddRates(dated);
    SameMeasuresKeepsNumeric(dated, rated);
    SameMeasuresTrans(coerced, dated, rated);
    shared := AddShares(rated);
    SameMeasuresKeepsNumeric(rated, shared);
    SameMeasuresTrans(coerced, rated, shared);
  }

  /**
   * A run that does not raise adds, drops and reorders no row: every column
   * of the standardised table is still there, no column outside `Written`
   * is added, and a cell of any other column (carrier, airport and the
   * like) stays in its row unchanged.
   */
  lemma CleanKeepsOthers(t: Table, r: Table, checks: map<string, int>)
    requires WellFormed(t) && Distinct(SnakeCase.SnakeHeaders(t.columns)) && Clean(t) == Some((r, checks))
    ensures WellFormed(r) && |r.rows| == |t.rows|
    ensures KeepsOthers(Standardize(t), r, Written())
  {
    var named, coerced, cast, dated, rated, shared := CleanStages(t, r, checks);
    CoerceColumnsKeepsOthers(named, MeasureCols);
    CastPeriodFieldsCells(coerced);
    KeepsOthersTrans(named, coerced, cast, MeasureCols, PeriodFields);
    KeepsOthersTrans(named, cast, dated, MeasureCols + PeriodFields, [YearMonthCol, KeyCol]);
    LaterKeepsOthers(dated, rated, shared, r, checks);
    KeepsOthersTrans(named, dated, r, MeasureCols + PeriodFields + [YearMonthCol, KeyCol], KpiCols());
  }

  /** The rate, share and flag steps together write at most `KpiCols`. */
  lemma LaterKeepsOthers(dated: Table, rated: Table, shared: Table, r: Table, checks: map<string, int>)
    requires WellFormed(dated) && Numeric(dated) && rated == AddRates(dated) && Numeric(rated)
    requires shared == AddShares(rated) && Numeric(shared) && (r, checks) == FlagStep(shared, map[])
    ensures WellFormed(r) && |r.rows| == |dated.rows| && KeepsOthers(dated, r, KpiCols())
  {
    KeepsOthersTrans(dated, rated, shared, RateCols, ShareCtCols() + ShareMinCols());
    KeepsOthersTrans(dated, shared, r, RateCols + (ShareCtCols() + ShareMinCols()), [FlagCol]);
  }

  /** None of the period columns is among `KpiCols`. */
  lemma PeriodNamesNotKpi()
    ensures "year" !in KpiCols() && "month" !in KpiCols() && YearMonthCol !in KpiCols() && KeyCol !in KpiCols()
  {
    forall o | o in KpiCols() ensures o != "year" && o != "month" && o != YearMonthCol && o != KeyCol {
      KpiColsAreNew(o);
    }
  }

  /**
   * In a run that does not raise, each year and month cell of the result is
   * the Int64 cast (line 73) of the standardised input's cell in the same row.
   */
  lemma CleanYearMonth(t: Table, r: Table, checks: map<string, int>)
    requires WellFormed(t) && Distinct(SnakeCase.SnakeHeaders(t.columns)) && Clean(t) == Some((r, checks))
    ensures WellFormed(r) && |r.rows| == |t.rows|
    ensures YearMonthCast(Standardize(t), r)
  {
    var named, coerced, cast, dated, rated, shared := CleanStages(t, r, checks);
    CoerceColumnsKeepsOthers(named, MeasureCols);
    LaterKeepsOthers(dated, rated, shared, r, checks);
    PeriodNamesNotMeasures("year");
    PeriodNamesNotMeasures("month");
    PeriodNamesNotKpi();
    CastPeriodFieldsCells(coerced);
    YearMonthThrough(named, coerced, cast, dated, r, MeasureCols, KpiCols());
  }

  /** Each year and month cell of `r` is the Int64 cast of the cell of `named` in the same row. */
  predicate YearMonthCast(named: Table, r: Table)
    requires WellFormed(named) && WellFormed(r) && |named.rows| == |r.rows|
  {
    forall i, c :: 0 <= i < |named.rows| && c in PeriodFields && c in named.columns ==>
      ToInt64(named.rows[i][c]).Some? && c in r.columns && r.rows[i][c] == ToInt64(named.rows[i][c]).value
  }

  /**
   * Year and month cast as `CastPeriodFields` casts them, then kept by the
   * steps around the cast that write other columns, end up as the Int64
   * casts of the first table's cells.
   */
  lemma YearMonthThrough(named: Table, coerced: Table, cast: Table, dated: Table, r: Table,
                         measures: seq<string>, later: seq<string>)
    requires WellFormed(named) && WellFormed(coerced) && WellFormed(cast) && WellFormed(dated) && WellFormed(r)
    requires |named.rows| == |coerced.rows| == |cast.rows| == |dated.rows| == |r.rows|
    requires KeepsOthers(named, coerced, measures) && PeriodCast(coerced, cast)
    requires KeepsOthers(cast, dated, [YearMonthCol, KeyCol]) && KeepsOthers(dated, r, later)
    requires "year" !in measures && "month" !in measures && "year" !in later && "month" !in later
    ensures YearMonthCast(named, r)
  {
    forall i, c | 0 <= i < |named.rows| && c in PeriodFields && c in named.columns
      ensures ToInt64(named.rows[i][c]).Some? && c in r.columns && r.rows[i][c] == ToInt64(named.rows[i][c]).value
    {
      assert c == "year" || c == "month";
      assert c !in measures && c !in later && c !in [YearMonthCol, KeyCol];
      assert coerced.rows[i][c] == named.rows[i][c];
      assert r.rows[i][c] == dated.rows[i][c] == cast.rows[i][c];
    }
  }

  /**
   * In a run that does not raise, when the table has year and month every
   * row of the result holds the "YYYY-MM" key and the first-of-month date of
   * its own (cast) year and month, each missing for an invalid month.
   */
  lemma CleanPeriod(t: Table, r: Table, checks: map<string, int>)
    requires WellFormed(t) && Distinct(SnakeCase.SnakeHeaders(t.columns)) && Clean(t) == Some((r, checks))
    requires "year" in Standardize(t).columns && "month" in Standardize(t).columns
    ensures WellFormed(r) && |r.rows| == |t.rows|
    ensures "year" in r.columns && "month" in r.columns && YearMonthCol in r.columns && KeyCol in r.columns
    ensures forall i :: 0 <= i < |t.rows| ==>
              r.rows[i]["year"].Int? && r.rows[i]["month"].Int? &&
              r.rows[i][KeyCol] == KeyCell(r.rows[i]["year"].n, r.rows[i]["month"].n) &&
              r.rows[i][YearMonthCol] == DateCell(r.rows[i]["year"].n, r.rows[i]["month"].n)
  {
    var named, coerced, cast, dated, rated, shared := CleanStages(t, r, checks);
    LaterKeepsOthers(dated, rated, shared, r, checks);
    PeriodNamesNotKpi();
    PeriodThrough(cast, dated, r, KpiCols());
  }

  /** The period columns a successful `AddPeriod` writes survive later steps that write other columns. */
  lemma PeriodThrough(cast: Table, dated: Table, r: Table, later: seq<string>)
    requires WellFormed(cast) && "year" in cast.columns && "month" in cast.columns
    requires AddPeriod(cast) == Some(dated) && WellFormed(r) && |r.rows| == |dated.rows| && KeepsOthers(dated, r, later)
    requires "year" !in later && "month" !in later && YearMonthCol !in later && KeyCol !in later
    ensures "year" in r.columns && "month" in r.columns && YearMonthCol in r.columns && KeyCol in r.columns
    ensures forall i :: 0 <= i < |r.rows| ==>
              r.rows[i]["year"].Int? && r.rows[i]["month"].Int? &&
              r.rows[i][KeyCol] == KeyCell(r.rows[i]["year"].n, r.rows[i]["month"].n) &&
              r.rows[i][YearMonthCol] == DateCell(r.rows[i]["year"].n, r.rows[i]["month"].n)
  {
    AddPeriodSpec(cast);
    AddPeriodFailsIff(cast);
    assert "year" != YearMonthCol && "year" != KeyCol && "month" != YearMonthCol && "month" != KeyCol;
    forall i | 0 <= i < |r.rows|
      ensures r.rows[i]["year"] == cast.rows[i]["year"] && r.rows[i]["month"] == cast.rows[i]["month"]
      ensures r.rows[i][KeyCol] == dated.rows[i][KeyCol] && r.rows[i][YearMonthCol] == dated.rows[i][YearMonthCol]
    {
    }
  }

  /**
   * In a run that does not raise, the result holds the three rates of the
   * coerced table (lines 88-99), each present whenever the table has its inputs.
   */
  lemma CleanRates(t: Table, r: Table, checks: map<string, int>)
    requires WellFormed(t) && Distinct(SnakeCase.SnakeHeaders(t.columns)) && Clean(t) == Some((r, checks))
    ensures WellFormed(r) && |r.rows| == |t.rows| && Numeric(CoerceColumns(Standardize(t), MeasureCols))
    ensures RateInputsOk(CoerceColumns(Standardize(t), MeasureCols))
    ensures RatesDone(CoerceColumns(Standardize(t), MeasureCols), r)
  {
    var named, coerced, cast, dated, rated, shared := CleanStages(t, r, checks);
    RateInputsNumeric(coerced);
    RateInputsAreMeasures();
    var later := ShareCtCols() + ShareMinCols() + [FlagCol];
    KeepsOthersTrans(rated, shared, r, ShareCtCols() + ShareMinCols(), [FlagCol]);
    RateColsNotLater(DelayedRateCol);
    RateColsNotLater(CancellationRateCol);
    RateColsNotLater(AvgDelayCol);
    RatioDoneMoved(coerced, dated, rated, r, "arr_del15", "arr_flights", DelayedRateCol, later);
    CancellationDoneMoved(coerced, dated, rated, r, "arr_flights", "arr_cancelled", "arr_diverted", CancellationRateCol, later);
    RatioDoneMoved(coerced, dated, rated, r, "arr_delay", "arr_del15", AvgDelayCol, later);
  }

  /**
   * In a run that does not raise, the result holds the ten cause shares of
   * the coerced table (lines 101-111), each present whenever the table has
   * its inputs.
   */
  lemma CleanShares(t: Table, r: Table, checks: map<string, int>)
    requires WellFormed(t) && Distinct(SnakeCase.SnakeHeaders(t.columns)) && Clean(t) == Some((r, checks))
    ensures WellFormed(r) && |r.rows| == |t.rows| && Numeric(CoerceColumns(Standardize(t), MeasureCols))
    ensures ShareInputsNumeric(CoerceColumns(Standardize(t), MeasureCols), CauseCountCols(), "arr_del15")
    ensures ShareInputsNumeric(CoerceColumns(Standardize(t), MeasureCols), CauseDelayCols(), "arr_delay")
    ensures SharesDone(CoerceColumns(Standardize(t), MeasureCols), r, CauseCountCols(), "arr_del15", ShareCtCols(), |Causes|)
    ensures SharesDone(CoerceColumns(Standardize(t), MeasureCols), r, CauseDelayCols(), "arr_delay", ShareMinCols(), |Causes|)
  {
    var named, coerced, cast, dated, rated, shared := CleanStages(t, r, checks);
    CauseShareNames();
    ShareInputsOfNumeric(coerced);
    ShareInputsOfNumeric(rated);
    FlagNotShare();
    SharesThrough(coerced, rated, shared, r, CauseCountCols(), "arr_del15", ShareCtCols(), [FlagCol]);
    SharesThrough(coerced, rated, shared, r, CauseDelayCols(), "arr_delay", ShareMinCols(), [FlagCol]);
  }

  /** The flag column is none of the ten share columns. */
  lemma FlagNotShare()
    ensures forall k :: 0 <= k < |Causes| ==> ShareCtCols()[k] !in [FlagCol] && ShareMinCols()[k] !in [FlagCol]
  {
    RateColsNotLater(DelayedRateCol);
  }

  /**
   * Shares written on `u`, a table that agrees with `t` on the measure
   * columns, are the shares of `t`, and they survive later steps `v` to `r`
   * that write other columns.
   */
  lemma SharesThrough(t: Table, u: Table, v: Table, r: Table, parts: seq<string>, whole: string, outs: seq<string>,
                      others: seq<string>)
    requires WellFormed(t) && WellFormed(u) && WellFormed(v) && WellFormed(r)
    requires |t.rows| == |u.rows| == |v.rows| == |r.rows| && |parts| == |outs|
    requires ShareInputsNumeric(t, parts, whole) && ShareInputsNumeric(u, parts, whole)
    requires SameMeasures(t, u) && whole in MeasureCols && forall k :: 0 <= k < |parts| ==> parts[k] in MeasureCols
    requires SharesDone(u, v, parts, whole, outs, |parts|) && KeepsOthers(v, r, others)
    requires forall k :: 0 <= k < |outs| ==> outs[k] !in others
    ensures SharesDone(t, r, parts, whole, outs, |parts|)
  {
    SharesDoneKept(u, v, r, parts, whole, outs, |parts|, others);
    SharesDoneTransfer(t, u, r, parts, whole, outs, |parts|);
  }
}
