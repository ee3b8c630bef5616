/**
 * Calendar dates as Python's `datetime.date` has them (proleptic Gregorian, years 1 to
 * 9999), the day number `toordinal()` gives them, and the parser
 * `datetime.strptime(s, "%Y-%m-%d").date()` that reads the baseline's stored dates.
 */
module Dates {
  import opened Optional
  import opened PyStr

  datatype Date = Date(year: int, month: int, day: int)

  predicate IsLeapYear(y: int) {
    y % 4 == 0 && (y % 100 != 0 || y % 400 == 0)
  }

  function DaysInMonth(y: int, m: int): (n: int)
    requires 1 <= m <= 12
    ensures 28 <= n <= 31
  {
    if m == 2 then (if IsLeapYear(y) then 29 else 28)
    else if m == 4 || m == 6 || m == 9 || m == 11 then 30
    else 31
  }

  /** The dates `datetime.date` can hold; any other triple raises ValueError. */
  predicate ValidDate(d: Date) {
    1 <= d.year <= 9999 && 1 <= d.month <= 12 && 1 <= d.day <= DaysInMonth(d.year, d.month)
  }

  /** Days of year `y` that come before the first of month `m`. */
  function DaysBeforeMonth(y: int, m: int): int
    requires 1 <= m <= 12
  {
    if m == 1 then 0 else DaysBeforeMonth(y, m - 1) + DaysInMonth(y, m - 1)
  }

  /** Days from 0001-01-01 to the first of January of year `y`. */
  function DaysBeforeYear(y: int): int
    requires y >= 1
  {
    var p := y - 1;
    p * 365 + p / 4 - p / 100 + p / 400
  }

  /** `d.toordinal()`: the day number of `d`, with 0001-01-01 as day 1. The difference
      of two of them is `(a - b).days`. */
  function Ordinal(d: Date): int
    requires ValidDate(d)
  {
    DaysBeforeYear(d.year) + DaysBeforeMonth(d.year, d.month) + d.day
  }

  /** The day after `d` (`d + timedelta(days=1)`); 9999-12-31 has none. */
  function NextDay(d: Date): (r: Date)
    requires ValidDate(d) && d != Date(9999, 12, 31)
    ensures ValidDate(r)
  {
    if d.day < DaysInMonth(d.year, d.month) then Date(d.year, d.month, d.day + 1)
    else if d.month < 12 then Date(d.year, d.month + 1, 1)
    else Date(d.year + 1, 1, 1)
  }

  lemma YearLength(y: int)
    requires y >= 1
    ensures DaysBeforeMonth(y, 12) + 31 == if IsLeapYear(y) then 366 else 365
  {
    var f := DaysInMonth(y, 2);
    assert DaysBeforeMonth(y, 2) == 31;
    assert DaysBeforeMonth(y, 3) == 31 + f;
    assert DaysBeforeMonth(y, 4) == 62 + f;
    assert DaysBeforeMonth(y, 5) == 92 + f;
    assert DaysBeforeMonth(y, 6) == 123 + f;
    assert DaysBeforeMonth(y, 7) == 153 + f;
    assert DaysBeforeMonth(y, 8) == 184 + f;
    assert DaysBeforeMonth(y, 9) == 215 + f;
    assert DaysBeforeMonth(y, 10) == 245 + f;
    assert DaysBeforeMonth(y, 11) == 276 + f;
  }

  lemma {:induction false} DaysBeforeNextYear(y: int)
    requires y >= 1
    ensures DaysBeforeYear(y + 1) == DaysBeforeYear(y) + (if IsLeapYear(y) then 366 else 365)
  {
    Quotients(y);
  }

  /** From `y - 1` to `y` the quotients by 4, 100 and 400 each grow by one exactly at a
      multiple; a multiple of 400 is one of 100, and a multiple of 100 is one of 4. */
  lemma Quotients(y: int)
    ensures y / 4 == (y - 1) / 4 + (if y % 4 == 0 then 1 else 0)
    ensures y / 100 == (y - 1) / 100 + (if y % 100 == 0 then 1 else 0)
    ensures y / 400 == (y - 1) / 400 + (if y % 400 == 0 then 1 else 0)
    ensures y % 400 == 0 ==> y % 100 == 0
    ensures y % 100 == 0 ==> y % 4 == 0
  {
  }

  /** Day numbers count days: the next day's number is one more. So `Ordinal(a) - Ordinal(b)`
      is the number of days from `b` to `a`. */
  lemma {:induction false} OrdinalNextDay(d: Date)
    requires ValidDate(d) && d != Date(9999, 12, 31)
    ensures Ordinal(NextDay(d)) == Ordinal(d) + 1
  {
    if d.day == DaysInMonth(d.year, d.month) && d.month == 12 {
      YearLength(d.year);
      DaysBeforeNextYear(d.year);
    }
  }

  // The directives %Y, %m and %d as CPython's _strptime matches them --------

  /** `%m`, matched by the alternatives 1[0-2] | 0[1-9] | [1-9]. */
  function MonthField(t: string): (r: Option<int>)
    ensures r.Some? ==> 1 <= r.value <= 12
  {
    if |t| == 1 && '1' <= t[0] <= '9' then Some(DigitValue(t[0]))
    else if |t| == 2 && ((t[0] == '1' && '0' <= t[1] <= '2') || (t[0] == '0' && '1' <= t[1] <= '9'))
    then Some(10 * DigitValue(t[0]) + DigitValue(t[1]))
    else None
  }

  /** `%d`, matched by the alternatives 3[01] | [12]\d | 0[1-9] | [1-9] | " "[1-9]. */
  function DayField(t: string): (r: Option<int>)
    ensures r.Some? ==> 1 <= r.value <= 31
  {
    if |t| == 1 && '1' <= t[0] <= '9' then Some(DigitValue(t[0]))
    else if |t| == 2 && t[0] == ' ' && '1' <= t[1] <= '9' then Some(DigitValue(t[1]))
    else if |t| == 2 && ((t[0] == '3' && '0' <= t[1] <= '1') || ('1' <= t[0] <= '2' && IsDigit(t[1]))
                         || (t[0] == '0' && '1' <= t[1] <= '9'))
    then Some(10 * DigitValue(t[0]) + DigitValue(t[1]))
    else None
  }

  /** `datetime.strptime(s, "%Y-%m-%d").date()`, or None where that raises ValueError:
      exactly four digits of year, a dash, the month, a dash and the day, with nothing
      left over, naming a date that exists. */
  function ParseDate(s: string): (r: Option<Date>)
    ensures r.Some? ==> ValidDate(r.value)
    ensures r.Some? ==> 8 <= |s| <= 10 && AllDigits(s[..4]) && s[4] == '-'
    ensures r.Some? ==> r.value.year == DigitsValue(s[..4])
  {
    if |s| < 7 || !AllDigits(s[..4]) || s[4] != '-' then None
    else
      var rest := s[5..];
      var monthLen := if rest[1] == '-' then 1 else if |rest| > 2 && rest[2] == '-' then 2 else 0;
      if monthLen == 0 then None
      else
        match (MonthField(rest[..monthLen]), DayField(rest[monthLen + 1..]))
        case (Some(m), Some(dd)) =>
          var date := Date(DigitsValue(s[..4]), m, dd);
          if ValidDate(date) then Some(date) else None
        case _ => None
  }

  // The stored form: `d.isoformat()` -----------------------------------------

  /** `v` as two zero-padded digits. */
  function Pad2(v: nat): (r: string)
    requires v < 100
    ensures |r| == 2 && AllDigits(r) && DigitsValue(r) == v
  {
    var r := [DigitChar(v / 10), DigitChar(v % 10)];
    assert r[..1] == [r[0]] && [r[0]][..0] == [];
    assert DigitsValue([r[0]]) == v / 10;
    assert DigitsValue(r) == 10 * (v / 10) + v % 10;
    r
  }

  /** `v` as four zero-padded digits. */
  function Pad4(v: nat): (r: string)
    requires v < 10000
    ensures |r| == 4 && AllDigits(r) && DigitsValue(r) == v
  {
    var hi := Pad2(v / 100);
    var lo := Pad2(v % 100);
    var r := hi + lo;
    assert r[..3] == hi + [lo[0]] && r[..2] == hi && lo[..1] == [lo[0]];
    assert DigitsValue(r) == 100 * DigitsValue(hi) + DigitsValue(lo);
    r
  }

  /** `d.isoformat()`: YYYY-MM-DD. */
  function FormatDate(d: Date): (s: string)
    requires ValidDate(d)
    ensures |s| == 10
  {
    Pad4(d.year) + "-" + Pad2(d.month) + "-" + Pad2(d.day)
  }

  /** Every date written in the stored form parses back to itself. */
  lemma FormatThenParse(d: Date)
    requires ValidDate(d)
    ensures ParseDate(FormatDate(d)) == Some(d)
  {
    var s := FormatDate(d);
    var y, m, dd := Pad4(d.year), Pad2(d.month), Pad2(d.day);
    assert s[..4] == y;
    assert s[4] == '-';
    var rest := s[5..];
    assert rest == m + "-" + dd;
    assert rest[2] == '-' && rest[1] != '-';
    assert rest[..2] == m && rest[3..] == dd;
    assert MonthField(m) == Some(d.month);
    assert DayField(dd) == Some(d.day);
  }

}
