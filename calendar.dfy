/**
 * The proleptic Gregorian calendar of Python's `datetime`: day numbers
 * (`toordinal`, with 0001-01-01 as day 1), `weekday()` (Monday is 0),
 * subtracting whole days, and the `"%Y%m%d"` rendering that run.py turns
 * into a query token.
 */
module Calendar {
  import opened Results

  datatype Date = Date(year: int, month: int, day: int)

  predicate IsLeapYear(y: int) {
    y % 4 == 0 && (y % 100 != 0 || y % 400 == 0)
  }

  function DaysInMonth(y: int, m: int): int
    requires 1 <= m <= 12
  {
    if m == 2 then (if IsLeapYear(y) then 29 else 28)
    else if m == 4 || m == 6 || m == 9 || m == 11 then 30
    else 31
  }

  function DaysInYear(y: int): int {
    if IsLeapYear(y) then 366 else 365
  }

  /** The dates `datetime` accepts: years 1 to 9999. */
  predicate ValidDate(d: Date) {
    1 <= d.year <= 9999 && 1 <= d.month <= 12 && 1 <= d.day <= DaysInMonth(d.year, d.month)
  }

  /** Days in the years before year `y`. */
  function DaysBeforeYear(y: int): int
    requires y >= 1
  {
    var z := y - 1;
    z * 365 + z / 4 - z / 100 + z / 400
  }

  /** Days in the months of year `y` before month `m`. */
  function DaysBeforeMonth(y: int, m: int): int
    requires 1 <= m <= 12
  {
    [0, 31, 59, 90, 120, 151, 181, 212, 243, 273, 304, 334][m - 1] + (if m > 2 && IsLeapYear(y) then 1 else 0)
  }

  /** `date.toordinal()`. */
  function Ordinal(d: Date): (r: int)
    requires ValidDate(d)
    ensures DaysBeforeYear(d.year) < r <= DaysBeforeYear(d.year) + DaysInYear(d.year)
  {
    DaysBeforeYear(d.year) + DaysBeforeMonth(d.year, d.month) + d.day
  }

  /** `date.weekday()` of the date with day number `o`: 0 is Monday, 6 is Sunday. */
  function WeekdayOf(o: int): int {
    (o + 6) % 7
  }

  function Weekday(d: Date): (w: int)
    requires ValidDate(d)
    ensures 0 <= w <= 6
  {
    WeekdayOf(Ordinal(d))
  }

  lemma YearStep(y: int)
    requires y >= 1
    ensures DaysBeforeYear(y + 1) == DaysBeforeYear(y) + DaysInYear(y)
  {
    var z := y;
    assert z / 4 == (z - 1) / 4 + (if z % 4 == 0 then 1 else 0);
    assert z / 100 == (z - 1) / 100 + (if z % 100 == 0 then 1 else 0);
    assert z / 400 == (z - 1) / 400 + (if z % 400 == 0 then 1 else 0);
  }

  lemma MonthStep(y: int, m: int)
    requires 1 <= m < 12
    ensures DaysBeforeMonth(y, m + 1) == DaysBeforeMonth(y, m) + DaysInMonth(y, m)
  {
  }

  /** Day numbers are positive. */
  lemma OrdinalPositive(d: Date)
    requires ValidDate(d)
    ensures Ordinal(d) >= 1
  {
    assert DaysBeforeYear(d.year) >= 0;
  }

  /** The day before a date other than 0001-01-01. */
  function PrevDay(d: Date): (r: Date)
    requires ValidDate(d) && d != Date(1, 1, 1)
    ensures ValidDate(r) && Ordinal(r) == Ordinal(d) - 1
  {
    if d.day > 1 then Date(d.year, d.month, d.day - 1)
    else if d.month > 1 then
      MonthEnd(d.year, d.month - 1);
      Date(d.year, d.month - 1, DaysInMonth(d.year, d.month - 1))
    else
      YearEnd(d.year - 1);
      Date(d.year - 1, 12, 31)
  }

  /** The last day of a month is the day before the first of the next one. */
  lemma MonthEnd(y: int, m: int)
    requires 1 <= y <= 9999 && 1 <= m < 12
    ensures ValidDate(Date(y, m, DaysInMonth(y, m))) && ValidDate(Date(y, m + 1, 1))
    ensures Ordinal(Date(y, m, DaysInMonth(y, m))) + 1 == Ordinal(Date(y, m + 1, 1))
  {
    MonthStep(y, m);
  }

  /** New Year's Eve is the day before the next New Year's Day. */
  lemma YearEnd(y: int)
    requires 1 <= y < 9999
    ensures ValidDate(Date(y, 12, 31)) && ValidDate(Date(y + 1, 1, 1))
    ensures Ordinal(Date(y, 12, 31)) + 1 == Ordinal(Date(y + 1, 1, 1))
  {
    YearStep(y);
  }

  /** Only 0001-01-01 has day number 1. */
  lemma FirstDay(d: Date)
    requires ValidDate(d)
    ensures Ordinal(d) == 1 <==> d == Date(1, 1, 1)
  {
    if d.year > 1 {
      assert DaysBeforeYear(d.year) >= 365;
    } else if d.month > 1 {
      assert DaysBeforeMonth(d.year, d.month) >= 31;
    }
  }

  /**
   * `d - timedelta(days=n)`: a date `n` days earlier, or `None` where Python
   * raises `OverflowError` because the result would precede 0001-01-01.
   */
  function MinusDays(d: Date, n: nat): (r: Option<Date>)
    requires ValidDate(d)
    ensures r.None? <==> Ordinal(d) <= n
    ensures r.Some? ==> ValidDate(r.value) && Ordinal(r.value) == Ordinal(d) - n
    decreases n
  {
    OrdinalPositive(d);
    if n == 0 then Some(d)
    else if d == Date(1, 1, 1) then None
    else MinusDays(PrevDay(d), n - 1)
  }

  /** The days before a year are more than those before any earlier year. */
  lemma {:induction false} DaysBeforeYearGrows(y: int, y': int)
    requires 1 <= y < y'
    ensures DaysBeforeYear(y) + DaysInYear(y) <= DaysBeforeYear(y')
    decreases y' - y
  {
    YearStep(y);
    if y + 1 < y' {
      DaysBeforeYearGrows(y + 1, y');
    }
  }

  /** Within a year, a later month starts after an earlier month ends. */
  lemma MonthsOrdered(y: int, m: int, m': int)
    requires 1 <= m < m' <= 12
    ensures DaysBeforeMonth(y, m) + DaysInMonth(y, m) <= DaysBeforeMonth(y, m')
  {
  }

  /** A day number names exactly one date. */
  lemma OrdinalInjective(a: Date, b: Date)
    requires ValidDate(a) && ValidDate(b) && Ordinal(a) == Ordinal(b)
    ensures a == b
  {
    if a.year < b.year {
      DaysBeforeYearGrows(a.year, b.year);
    } else if b.year < a.year {
      DaysBeforeYearGrows(b.year, a.year);
    }
    assert a.year == b.year;
    if a.month < b.month {
      MonthsOrdered(a.year, a.month, b.month);
    } else if b.month < a.month {
      MonthsOrdered(a.year, b.month, a.month);
    }
  }

  function Pow10(n: nat): nat {
    if n == 0 then 1 else 10 * Pow10(n - 1)
  }

  predicate IsDigit(c: char) {
    '0' <= c <= '9'
  }

  function DigitValue(c: char): nat
    requires IsDigit(c)
  {
    c as int - '0' as int
  }

  /** The number a string of decimal digits stands for. */
  function DecimalValue(s: string): nat
    requires forall k :: 0 <= k < |s| ==> IsDigit(s[k])
  {
    if s == [] then 0 else 10 * DecimalValue(s[..|s| - 1]) + DigitValue(s[|s| - 1])
  }

  /** `x` in decimal, zero-padded to `width` digits. */
  function Digits(x: nat, width: nat): (r: string)
    requires x < Pow10(width)
    ensures |r| == width
    ensures forall k :: 0 <= k < |r| ==> IsDigit(r[k])
    ensures DecimalValue(r) == x
  {
    if width == 0 then ""
    else
      var r := Digits(x / 10, width - 1) + [('0' as int + x % 10) as char];
      assert r[..|r| - 1] == Digits(x / 10, width - 1);
      r
  }

  /** `d.strftime("%Y%m%d") + "0000"`, the `YYYYMMDDTTTT` form of midnight on `d`. */
  function DateToken(d: Date): (token: string)
    requires ValidDate(d)
    ensures |token| == 12 && token[8..] == "0000"
  {
    Digits(d.year, 4) + Digits(d.month, 2) + Digits(d.day, 2) + "0000"
  }

  /** A token has twelve digits, ends in "0000", and its fields read back as the date. */
  lemma DateTokenShape(d: Date)
    requires ValidDate(d)
    ensures |DateToken(d)| == 12
    ensures forall k :: 0 <= k < 12 ==> IsDigit(DateToken(d)[k])
    ensures DateToken(d)[8..] == "0000"
    ensures DecimalValue(DateToken(d)[..4]) == d.year
    ensures DecimalValue(DateToken(d)[4..6]) == d.month
    ensures DecimalValue(DateToken(d)[6..8]) == d.day
  {
    var y, m, dd := Digits(d.year, 4), Digits(d.month, 2), Digits(d.day, 2);
    var t := DateToken(d);
    assert t == y + m + dd + "0000";
    assert t[..4] == y;
    assert t[4..6] == m;
    assert t[6..8] == dd;
    assert t[8..] == "0000";
  }

  /** Different dates have different tokens. */
  lemma DateTokenInjective(a: Date, b: Date)
    requires ValidDate(a) && ValidDate(b) && DateToken(a) == DateToken(b)
    ensures a == b
  {
    DateTokenShape(a);
    DateTokenShape(b);
  }
}
