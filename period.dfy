/**
 * The "YYYY-MM" period key (src/cleaning_pipeline.py:80-86).
 *
 * The script builds the string "<year>-<month>-01", parses it with
 * `pd.to_datetime(..., errors="coerce")` and formats the result with
 * `strftime("%Y-%m")`. Parsing succeeds exactly when the month is 1..12 and
 * the first day of that month is a representable pandas Timestamp
 * (nanosecond resolution: 1677-09-21 .. 2262-04-11); otherwise the date is
 * NaT and the key is missing.
 */
module Period {
  import opened Wrappers

  /** A calendar month: the datetime of its first day. */
  datatype YearMonth = YearMonth(year: int, month: int)

  predicate ValidMonth(month: int) {
    1 <= month <= 12
  }

  /** The first day of the month lies between 1677-09-21 and 2262-04-11. */
  predicate InTimestampRange(year: int, month: int) {
    (year > 1677 || (year == 1677 && month >= 10)) &&
    (year < 2262 || (year == 2262 && month <= 4))
  }

  /** `pd.to_datetime(f"{year}-{month}-01", errors="coerce")`, `None` for NaT. */
  function MonthStart(year: int, month: int): Option<YearMonth> {
    if ValidMonth(month) && InTimestampRange(year, month) then Some(YearMonth(year, month)) else None
  }

  function DigitChar(d: int): (c: char)
    requires 0 <= d <= 9
    ensures '0' <= c <= '9'
  {
    ('0' as int + d) as char
  }

  function DigitValue(c: char): int
    requires '0' <= c <= '9'
  {
    c as int - '0' as int
  }

  /** `strftime("%Y-%m")`: four-digit year, '-', two-digit zero-padded month. */
  function FormatKey(ym: YearMonth): string
    requires 0 <= ym.year <= 9999 && ValidMonth(ym.month)
  {
    var y := ym.year;
    [DigitChar(y / 1000), DigitChar(y / 100 % 10), DigitChar(y / 10 % 10), DigitChar(y % 10), '-',
     DigitChar(ym.month / 10), DigitChar(ym.month % 10)]
  }

  /** `df["year_month_key"]` for one row: missing exactly when the date is NaT. */
  function YearMonthKey(year: int, month: int): Option<string> {
    match MonthStart(year, month)
    case None => None
    case Some(ym) => Some(FormatKey(ym))
  }

  predicate IsDigit(c: char) {
    '0' <= c <= '9'
  }

  /** Reads a "YYYY-MM" key back into its year and month. */
  function ParseKey(key: string): Option<YearMonth> {
    if |key| == 7 && key[4] == '-' && IsDigit(key[0]) && IsDigit(key[1]) && IsDigit(key[2])
       && IsDigit(key[3]) && IsDigit(key[5]) && IsDigit(key[6])
    then
      var year := 1000 * DigitValue(key[0]) + 100 * DigitValue(key[1]) + 10 * DigitValue(key[2]) + DigitValue(key[3]);
      var month := 10 * DigitValue(key[5]) + DigitValue(key[6]);
      Some(YearMonth(year, month))
    else None
  }

  /**
   * The key is present exactly when the month is valid and the month's first
   * day is a representable Timestamp; an invalid month gives a missing key
   * (the row itself is kept).
   */
  lemma YearMonthKeyDefined(year: int, month: int)
    ensures YearMonthKey(year, month).Some? <==> ValidMonth(month) && InTimestampRange(year, month)
    ensures ValidMonth(month) && 1678 <= year <= 2261 ==> YearMonthKey(year, month).Some?
  {
  }

  /** A present key has the shape "YYYY-MM" and reads back as the row's year and month. */
  lemma {:induction false} YearMonthKeyRoundTrip(year: int, month: int)
    requires YearMonthKey(year, month).Some?
    ensures |YearMonthKey(year, month).value| == 7 && YearMonthKey(year, month).value[4] == '-'
    ensures ParseKey(YearMonthKey(year, month).value) == Some(YearMonth(year, month))
  {
    var key := YearMonthKey(year, month).value;
    assert key == FormatKey(YearMonth(year, month));
    assert DigitValue(key[0]) == year / 1000;
    assert DigitValue(key[1]) == year / 100 % 10;
    assert DigitValue(key[2]) == year / 10 % 10;
    assert DigitValue(key[3]) == year % 10;
    assert DigitValue(key[5]) == month / 10;
    assert DigitValue(key[6]) == month % 10;
    FourDigits(year);
  }

  /**
   * The month-start date and the key agree: both are present or both are
   * missing, a present date is the first day of the row's own month, and the
   * key reads back as that date.
   */
  lemma MonthStartMatchesKey(year: int, month: int)
    ensures MonthStart(year, month).Some? <==> YearMonthKey(year, month).Some?
    ensures MonthStart(year, month).Some? ==>
      MonthStart(year, month).value == YearMonth(year, month) &&
      ParseKey(YearMonthKey(year, month).value) == MonthStart(year, month)
  {
    if MonthStart(year, month).Some? {
      YearMonthKeyRoundTrip(year, month);
    }
  }

  /** A number below 10000 is the sum of its four decimal digits' place values. */
  lemma FourDigits(n: int)
    requires 0 <= n <= 9999
    ensures 1000 * (n / 1000) + 100 * (n / 100 % 10) + 10 * (n / 10 % 10) + n % 10 == n
  {
    var d0, d1, d2 := n % 10, n / 10 % 10, n / 100 % 10;
    var q1, q2 := n / 10, n / 100;
    assert n == 10 * q1 + d0 && q1 == 10 * (q1 / 10) + d1;
    DivHundred(n, q1 / 10, 10 * d1 + d0);
    assert q2 == 10 * (q2 / 10) + d2;
    DivThousand(n, q2 / 10, 100 * d2 + 10 * d1 + d0);
  }

  lemma DivHundred(n: int, q: int, r: int)
    requires 0 <= r < 100 && n == 100 * q + r
    ensures n / 100 == q
  {
  }

  lemma DivThousand(n: int, q: int, r: int)
    requires 0 <= r < 1000 && n == 1000 * q + r
    ensures n / 1000 == q
  {
  }

  /** Distinct months get distinct keys. */
  lemma YearMonthKeyInjective(y1: int, m1: int, y2: int, m2: int)
    requires YearMonthKey(y1, m1).Some? && YearMonthKey(y1, m1) == YearMonthKey(y2, m2)
    ensures y1 == y2 && m1 == m2
  {
    YearMonthKeyRoundTrip(y1, m1);
    YearMonthKeyRoundTrip(y2, m2);
  }
}
