/**
 * The cleaning script as it runs: one data frame whose header, rows and
 * quality checks each step of src/cleaning_pipeline.py:48-123 updates in
 * place. Every method is proved to leave the frame exactly as the step
 * function of the same lines in module Steps says.
 */
module Cleaning {
  import opened Wrappers
  import opened Columns
  import opened Steps
  import opened Pipeline
  import SnakeCase

  /** `int(flags.sum())` (line 123): the number of set flags. */
  method CountFlags(flags: seq<bool>) returns (n: nat)
    ensures n == CountTrue(flags)
    ensures n == |set i | 0 <= i < |flags| && flags[i]|
  {
    n := 0;
    var k := 0;
    while k < |flags|
      invariant 0 <= k <= |flags|
      invariant n == CountTrue(flags[..k])
    {
      assert flags[..k + 1][..k] == flags[..k];
      if flags[k] {
        n := n + 1;
      }
      k := k + 1;
    }
    assert flags[..k] == flags;
    CountTrueIsCardinality(flags);
  }

  /** The pandas data frame `df` and the dictionary `checks` of the script. */
  class Frame {
    var columns: seq<string>
    var rows: seq<Row>
    var checks: map<string, int>

    /** The frame's current contents as a table value. */
    function Snapshot(): Table
      reads this
    {
      Table(columns, rows)
    }

    predicate Valid()
      reads this
    {
      WellFormed(Snapshot())
    }

    /** The frame `pd.read_csv` loaded (line 42), and no checks yet. */
    constructor (t: Table)
      requires WellFormed(t)
      ensures Valid() && Snapshot() == t && checks == map[]
    {
      columns := t.columns;
      rows := t.rows;
      checks := map[];
    }

    /** `df[name] = values`: overwrite the column in place, or append it as the last column. */
    method Assign(name: string, values: seq<Cell>)
      requires Valid() && |values| == |rows|
      modifies this
      ensures Valid() && Snapshot() == SetColumn(old(Snapshot()), name, values) && checks == old(checks)
    {
      if name !in columns {
        columns := columns + [name];
      }
      var before := rows;
      rows := seq(|before|, i requires 0 <= i < |before| => before[i][name := values[i]]);
    }

    /** Line 48: all headers replaced at once by their snake-case forms, in a single assignment. */
    method StandardizeHeaders()
      requires Valid() && Distinct(SnakeCase.SnakeHeaders(columns))
      modifies this
      ensures Valid() && Snapshot() == Standardize(old(Snapshot())) && checks == old(checks)
    {
      var names := SnakeCase.SnakeHeaders(columns);
      rows := RenameRows(Snapshot(), names);
      columns := names;
    }

    /** Lines 66-68: each measure column the frame has becomes numeric, missing values 0. */
    method CoerceMeasures()
      requires Valid()
      modifies this
      ensures Valid() && Snapshot() == CoerceColumns(old(Snapshot()), MeasureCols) && checks == old(checks)
    {
      CoerceEach(MeasureCols);
    }

    /** The loop of lines 66-68 over the column names `cols`, one after the other. */
    method CoerceEach(cols: seq<string>)
      requires Valid()
      modifies this
      ensures Valid() && Snapshot() == CoerceColumns(old(Snapshot()), cols) && checks == old(checks)
    {
      var k := 0;
      while k < |cols|
        invariant 0 <= k <= |cols|
        invariant Valid() && Snapshot() == CoerceColumns(old(Snapshot()), cols[..k]) && checks == old(checks)
      {
        var col := cols[k];
        if col in columns {
          Assign(col, CoercedCells(Snapshot(), col));
        }
        assert cols[..k + 1][..k] == cols[..k];
        k := k + 1;
      }
      assert cols[..k] == cols;
    }

    /**
     * Lines 71-73: year and month cast to Int64, one after the other;
     * `false` when a cast raises.
     */
    method CastYearMonth() returns (ok: bool)
      requires Valid()
      modifies this
      ensures Valid() && checks == old(checks)
      ensures ok <==> CastPeriodFields(old(Snapshot()), 2).Some?
      ensures ok ==> Snapshot() == CastPeriodFields(old(Snapshot()), 2).value
    {
      var k := 0;
      while k < |PeriodFields|
        invariant 0 <= k <= |PeriodFields|
        invariant Valid() && checks == old(checks)
        invariant CastPeriodFields(old(Snapshot()), k) == Some(Snapshot())
      {
        var col := PeriodFields[k];
        if col in columns {
          if !CastableColumn(Snapshot(), col) {
            CastFailureStays(old(Snapshot()), k + 1);
            return false;
          }
          Assign(col, CastCells(Snapshot(), col));
        }
        k := k + 1;
      }
      return true;
    }

    /**
     * Lines 80-86: the "year_month" and "year_month_key" columns when the
     * frame has year and month. `false` when `astype("int")` raises on a
     * missing year or month.
     */
    method AddPeriodColumns() returns (ok: bool)
      requires Valid()
      modifies this
      ensures Valid() && checks == old(checks)
      ensures ok <==> AddPeriod(old(Snapshot())).Some?
      ensures ok ==> Snapshot() == AddPeriod(old(Snapshot())).value
    {
      if "year" in columns && "month" in columns {
        var t := Snapshot();
        if !PeriodCastable(t) {
          return false;
        }
        Assign(YearMonthCol, DateCells(t));
        Assign(KeyCol, KeyCells(t));
      }
      return true;
    }

    /** Lines 88-99: the three rate columns, each when the frame has its inputs. */
    method AddRateColumns()
      requires Valid() && Numeric(Snapshot())
      modifies this
      ensures Valid() && Snapshot() == AddRates(old(Snapshot())) && checks == old(checks)
    {
      ghost var t := Snapshot();
      RateInputsNumeric(t);
      KpiNamesNotMeasures(DelayedRateCol);
      KpiNamesNotMeasures(CancellationRateCol);
      KpiNamesNotMeasures(AvgDelayCol);
      if "arr_del15" in columns && "arr_flights" in columns {
        Assign(DelayedRateCol, RatioCells(Snapshot(), "arr_del15", "arr_flights"));
      }
      assert Snapshot() == RatioColumn(t, "arr_del15", "arr_flights", DelayedRateCol);
      ghost var delayed := Snapshot();
      SameMeasuresKeepsNumeric(t, delayed);
      RateInputsNumeric(delayed);
      if "arr_flights" in columns && "arr_cancelled" in columns && "arr_diverted" in columns {
        Assign(CancellationRateCol, CancellationCells(Snapshot(), "arr_flights", "arr_cancelled", "arr_diverted"));
      }
      assert Snapshot() == CancellationColumn(delayed, "arr_flights", "arr_cancelled", "arr_diverted", CancellationRateCol);
      ghost var cancelled := Snapshot();
      SameMeasuresKeepsNumeric(delayed, cancelled);
      RateInputsNumeric(cancelled);
      if "arr_delay" in columns && "arr_del15" in columns {
        Assign(AvgDelayCol, RatioCells(Snapshot(), "arr_delay", "arr_del15"));
      }
      assert Snapshot() == RatioColumn(cancelled, "arr_delay", "arr_del15", AvgDelayCol);
    }

    /**
     * The loop of lines 102-105 (or 108-111) from the table `t` it started
     * on: for each cause, the share `parts[k] / whole` as column `outs[k]`
     * when the frame has both inputs.
     */
    method ShareLoop(ghost t: Table, parts: seq<string>, whole: string, outs: seq<string>)
      requires Valid() && Snapshot() == t
      requires ShareNames(parts, whole, outs) && ShareInputsNumeric(t, parts, whole)
      modifies this
      ensures Valid() && Snapshot() == ShareColumns(t, parts, whole, outs, |parts|) && checks == old(checks)
    {
      var k := 0;
      while k < |parts|
        invariant 0 <= k <= |parts|
        invariant Valid() && Snapshot() == ShareColumns(t, parts, whole, outs, k) && checks == old(checks)
      {
        ShareOne(t, parts, whole, outs, k);
        k := k + 1;
      }
    }

    /** One turn of the share loop: the share of cause `k` when the frame has its inputs. */
    method ShareOne(ghost t: Table, parts: seq<string>, whole: string, outs: seq<string>, k: nat)
      requires WellFormed(t) && ShareNames(parts, whole, outs) && ShareInputsNumeric(t, parts, whole) && k < |parts|
      requires Snapshot() == ShareColumns(t, parts, whole, outs, k)
      modifies this
      ensures Valid() && Snapshot() == ShareColumns(t, parts, whole, outs, k + 1) && checks == old(checks)
    {
      ShareColumnsNext(t, parts, whole, outs, k, Snapshot());
      if parts[k] in columns && whole in columns {
        Assign(outs[k], RatioCells(Snapshot(), parts[k], whole));
      }
    }

    /** Lines 101-111: the count-based shares, then the minute-based shares. */
    method AddShareColumns()
      requires Valid() && Numeric(Snapshot())
      modifies this
      ensures Valid() && Snapshot() == AddShares(old(Snapshot())) && checks == old(checks)
    {
      ghost var t := Snapshot();
      CauseShareNames();
      ShareInputsOfNumeric(t);
      ShareLoop(t, CauseCountCols(), "arr_del15", ShareCtCols());
      ghost var counted := Snapshot();
      OnlyOutsChanged(t, counted, ShareCtCols());
      SameMeasuresKeepsNumeric(t, counted);
      ShareInputsOfNumeric(counted);
      ShareLoop(counted, CauseDelayCols(), "arr_delay", ShareMinCols());
    }

    /**
     * Lines 119-123: when the frame has every column of `req`, the flag
     * column and the count of flagged rows in the checks.
     */
    method FlagCauseCounts()
      requires Valid() && Numeric(Snapshot())
      modifies this
      ensures Valid() && (Snapshot(), checks) == FlagStep(old(Snapshot()), old(checks))
    {
      var t := Snapshot();
      if FlagInputsPresent(t) {
        var flags := Flags(t);
        Assign(FlagCol, FlagCells(flags));
        var n := CountFlags(flags);
        checks := checks[FlagCheck := n];
      }
    }

    /** Lines 48-123 in order; `false` when the script raises. */
    method Run() returns (ok: bool)
      requires Valid() && Distinct(SnakeCase.SnakeHeaders(columns))
      modifies this
      ensures Valid()
      ensures ok <==> Clean(old(Snapshot())).Some?
      ensures ok ==> (Snapshot(), checks) == Clean(old(Snapshot())).value
    {
      StandardizeHeaders();
      ghost var named := Snapshot();
      CoerceMeasures();
      CoercedMeasuresNumeric(named);
      ghost var coerced := Snapshot();
      ok := CastYearMonth();
      if !ok {
        return;
      }
      CastPeriodFieldsSameMeasures(coerced);
      SameMeasuresKeepsNumeric(coerced, Snapshot());
      ok := AddFeatures();
    }

    /**
     * Lines 77-123 on the cast frame: the period columns, the rates, the
     * shares and the quality flag, with fresh checks; `false` when line 82
     * raises.
     */
    method AddFeatures() returns (ok: bool)
      requires Valid() && Numeric(Snapshot())
      modifies this
      ensures Valid()
      ensures ok <==> Features(old(Snapshot())).Some?
      ensures ok ==> (Snapshot(), checks) == Features(old(Snapshot())).value
    {
      ghost var cast := Snapshot();
      ok := AddPeriodColumns();
      if !ok {
        return;
      }
      AddPeriodSameMeasures(cast);
      SameMeasuresKeepsNumeric(cast, Snapshot());
      ghost var dated := Snapshot();
      AddRateColumns();
      SameMeasuresKeepsNumeric(dated, Snapshot());
      ghost var rated := Snapshot();
      AddShareColumns();
      SameMeasuresKeepsNumeric(rated, Snapshot());
      checks := map[];
      FlagCauseCounts();
    }
  }
}
