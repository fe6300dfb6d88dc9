/**
 * Calendar dates as the crawl uses them: proleptic Gregorian (year, month, day),
 * the one-day step `date + timedelta(days=1)`, the `%Y-%m-%d` text form that
 * `strftime` writes and `strptime` reads, and the per-day listing URL.
 */
module Dates {
  import opened Wrappers
  import Text

  datatype Date = Date(year: int, month: int, day: int)

  predicate IsLeapYear(y: int) {
    y % 4 == 0 && (y % 100 != 0 || y % 400 == 0)
  }

  function DaysInMonth(y: int, m: int): int
    requires 1 <= m <= 12
  {
    if m == 2 then (if IsLeapYear(y) then 29 else 28)
    else if m == 4 || m == 6 || m == 9 || m == 11 then 30
    else 31
  }

  /** A real calendar day from year 1 on. */
  predicate Valid(d: Date) {
    1 <= d.year && 1 <= d.month <= 12 && 1 <= d.day <= DaysInMonth(d.year, d.month)
  }

  /** Python's date comparison: lexicographic on (year, month, day). */
  predicate Before(a: Date, b: Date) {
    a.year < b.year
    || (a.year == b.year && (a.month < b.month || (a.month == b.month && a.day < b.day)))
  }

  predicate AtMost(a: Date, b: Date) {
    !Before(b, a)
  }

  // ---- day numbers (Python's date.toordinal(): 0001-01-01 is day 1) ----

  function DaysBeforeYear(y: int): int
    requires y >= 1
  {
    var p := y - 1;
    365 * p + p / 4 - p / 100 + p / 400
  }

  function DaysBeforeMonth(y: int, m: int): nat
    requires 1 <= m <= 12
  {
    if m == 1 then 0 else DaysBeforeMonth(y, m - 1) + DaysInMonth(y, m - 1)
  }

  function Ordinal(d: Date): int
    requires Valid(d)
  {
    DaysBeforeYear(d.year) + DaysBeforeMonth(d.year, d.month) + d.day
  }

  /** Stepping the year by one adds one to `y / 4` exactly when 4 divides `y`; likewise for 100 and 400. */
  lemma DivStep4(y: int)
    requires y >= 1
    ensures y / 4 - (y - 1) / 4 == (if y % 4 == 0 then 1 else 0)
  {
    var p := y - 1;
    if p % 4 == 3 { assert y == 4 * (p / 4 + 1); } else { assert y == 4 * (p / 4) + p % 4 + 1; }
  }

  lemma DivStep100(y: int)
    requires y >= 1
    ensures y / 100 - (y - 1) / 100 == (if y % 100 == 0 then 1 else 0)
  {
    var p := y - 1;
    if p % 100 == 99 { assert y == 100 * (p / 100 + 1); } else { assert y == 100 * (p / 100) + p % 100 + 1; }
  }

  lemma DivStep400(y: int)
    requires y >= 1
    ensures y / 400 - (y - 1) / 400 == (if y % 400 == 0 then 1 else 0)
  {
    var p := y - 1;
    if p % 400 == 399 { assert y == 400 * (p / 400 + 1); } else { assert y == 400 * (p / 400) + p % 400 + 1; }
  }

  /** Days of the year before December: 334, or 335 in a leap year. */
  lemma BeforeDecember(y: int)
    ensures DaysBeforeMonth(y, 12) == 334 + (if IsLeapYear(y) then 1 else 0)
  {
    assert DaysBeforeMonth(y, 2) == 31;
    assert DaysBeforeMonth(y, 3) == 31 + DaysInMonth(y, 2);
    assert DaysBeforeMonth(y, 4) == 62 + DaysInMonth(y, 2);
    assert DaysBeforeMonth(y, 5) == 92 + DaysInMonth(y, 2);
    assert DaysBeforeMonth(y, 6) == 123 + DaysInMonth(y, 2);
    assert DaysBeforeMonth(y, 7) == 153 + DaysInMonth(y, 2);
    assert DaysBeforeMonth(y, 8) == 184 + DaysInMonth(y, 2);
    assert DaysBeforeMonth(y, 9) == 215 + DaysInMonth(y, 2);
    assert DaysBeforeMonth(y, 10) == 245 + DaysInMonth(y, 2);
    assert DaysBeforeMonth(y, 11) == 276 + DaysInMonth(y, 2);
  }

  /** The leap-year rule counted as multiples of 4, less multiples of 100, plus multiples of 400. */
  lemma LeapCount(y: int)
    ensures (if y % 4 == 0 then 1 else 0) - (if y % 100 == 0 then 1 else 0) + (if y % 400 == 0 then 1 else 0)
            == (if IsLeapYear(y) then 1 else 0)
  {
    if y % 400 == 0 {
      var k := y / 400;
      assert y == 100 * (4 * k) && y == 4 * (100 * k);
    } else if y % 100 == 0 {
      var k := y / 100;
      assert y == 4 * (25 * k);
    }
  }

  lemma DaysBeforeNextYear(y: int)
    requires y >= 1
    ensures DaysBeforeYear(y + 1) - DaysBeforeYear(y)
            == 365 + (y / 4 - (y - 1) / 4) - (y / 100 - (y - 1) / 100) + (y / 400 - (y - 1) / 400)
  {
  }

  /** A year has 365 days, 366 when it is a leap year; the next year's day numbers follow on. */
  lemma YearLength(y: int)
    requires y >= 1
    ensures DaysBeforeYear(y + 1)
            == DaysBeforeYear(y) + DaysBeforeMonth(y, 12) + DaysInMonth(y, 12)
  {
    DaysBeforeNextYear(y);
    DivStep4(y);
    DivStep100(y);
    DivStep400(y);
    LeapCount(y);
    BeforeDecember(y);
  }

  /** The day after `d`: the next day of the month, else the 1st of the next month or year. */
  function NextDay(d: Date): (r: Date)
    requires Valid(d)
    ensures Valid(r)
  {
    if d.day < DaysInMonth(d.year, d.month) then Date(d.year, d.month, d.day + 1)
    else if d.month < 12 then Date(d.year, d.month + 1, 1)
    else Date(d.year + 1, 1, 1)
  }

  /** The next day is the day whose number is one more: no day is skipped or repeated. */
  lemma NextDayOrdinal(d: Date)
    requires Valid(d)
    ensures Ordinal(NextDay(d)) == Ordinal(d) + 1
  {
    if d.day == DaysInMonth(d.year, d.month) && d.month == 12 {
      YearLength(d.year);
    }
  }

  lemma {:induction false} MonthsAscend(y: int, m1: int, m2: int)
    requires 1 <= m1 < m2 <= 12
    ensures DaysBeforeMonth(y, m1) + DaysInMonth(y, m1) <= DaysBeforeMonth(y, m2)
    decreases m2
  {
    if m1 < m2 - 1 {
      MonthsAscend(y, m1, m2 - 1);
    }
  }

  lemma {:induction false} YearsAscend(y1: int, y2: int)
    requires 1 <= y1 < y2
    ensures DaysBeforeYear(y1) + DaysBeforeMonth(y1, 12) + DaysInMonth(y1, 12) <= DaysBeforeYear(y2)
    decreases y2
  {
    YearLength(y1);
    if y1 < y2 - 1 {
      YearsAscend(y1, y2 - 1);
      YearLength(y2 - 1);
    }
  }

  /** A valid day lies within its year's span of day numbers. */
  lemma WithinYear(d: Date)
    requires Valid(d)
    ensures DaysBeforeYear(d.year) < Ordinal(d)
    ensures Ordinal(d) <= DaysBeforeYear(d.year) + DaysBeforeMonth(d.year, 12) + DaysInMonth(d.year, 12)
  {
    if d.month < 12 {
      MonthsAscend(d.year, d.month, 12);
    }
  }

  /** Lexicographic order on valid dates is the order of their day numbers. */
  lemma OrdinalOrder(a: Date, b: Date)
    requires Valid(a) && Valid(b)
    ensures Before(a, b) <==> Ordinal(a) < Ordinal(b)
    ensures a == b <==> Ordinal(a) == Ordinal(b)
  {
    WithinYear(a);
    WithinYear(b);
    if a.year < b.year {
      YearsAscend(a.year, b.year);
    } else if b.year < a.year {
      YearsAscend(b.year, a.year);
    } else if a.month < b.month {
      MonthsAscend(a.year, a.month, b.month);
    } else if b.month < a.month {
      MonthsAscend(a.year, b.month, a.month);
    }
  }

  // ---- the %Y-%m-%d text form ----

  function DigitChar(n: int): char
    requires 0 <= n <= 9
  {
    ('0' as int + n) as char
  }

  function DigitValue(c: char): int
    requires Text.IsDigit(c)
  {
    c as int - '0' as int
  }

  /** `%Y` for years 1..9999: four digits, zero-padded. */
  function Year4(y: int): string
    requires 0 <= y <= 9999
  {
    [DigitChar(y / 1000), DigitChar(y / 100 % 10), DigitChar(y / 10 % 10), DigitChar(y % 10)]
  }

  /** `%m` and `%d`: two digits, zero-padded. */
  function Two(n: int): string
    requires 0 <= n <= 99
  {
    [DigitChar(n / 10), DigitChar(n % 10)]
  }

  /** `date.strftime('%Y-%m-%d')`. */
  function Format(d: Date): (s: string)
    requires Valid(d) && d.year <= 9999
    ensures |s| == 10
  {
    Year4(d.year) + "-" + Two(d.month) + "-" + Two(d.day)
  }

  predicate DigitsAt(s: string, lo: nat, hi: nat)
    requires lo <= hi <= |s|
  {
    forall i :: lo <= i < hi ==> Text.IsDigit(s[i])
  }

  /**
   * `datetime.strptime(s, '%Y-%m-%d')` on the fixed-width form: four digits,
   * a dash, two digits, a dash, two digits, naming a real day.
   */
  function Parse(s: string): (r: Option<Date>)
    ensures r.Some? ==> Valid(r.value) && r.value.year <= 9999
  {
    if |s| == 10 && s[4] == '-' && s[7] == '-'
       && DigitsAt(s, 0, 4) && DigitsAt(s, 5, 7) && DigitsAt(s, 8, 10)
    then
      var d := Date(
        1000 * DigitValue(s[0]) + 100 * DigitValue(s[1]) + 10 * DigitValue(s[2]) + DigitValue(s[3]),
        10 * DigitValue(s[5]) + DigitValue(s[6]),
        10 * DigitValue(s[8]) + DigitValue(s[9]));
      if Valid(d) then Some(d) else None
    else None
  }

  lemma DigitValueOf(n: int)
    requires 0 <= n <= 9
    ensures Text.IsDigit(DigitChar(n)) && DigitValue(DigitChar(n)) == n
  {
  }

  /** The four `%Y` digits of a year read back as that year. */
  lemma Year4Value(y: int)
    requires 0 <= y <= 9999
    ensures var t := Year4(y);
      && Text.IsDigit(t[0]) && Text.IsDigit(t[1]) && Text.IsDigit(t[2]) && Text.IsDigit(t[3])
      && 1000 * DigitValue(t[0]) + 100 * DigitValue(t[1]) + 10 * DigitValue(t[2]) + DigitValue(t[3]) == y
  {
    DigitValueOf(y / 1000);
    DigitValueOf(y / 100 % 10);
    DigitValueOf(y / 10 % 10);
    DigitValueOf(y % 10);
    DecimalDigits(y);
  }

  lemma DecimalDigits(y: int)
    requires 0 <= y <= 9999
    ensures 1000 * (y / 1000) + 100 * (y / 100 % 10) + 10 * (y / 10 % 10) + y % 10 == y
  {
    assert y == 10 * (y / 10) + y % 10;
    assert y / 10 == 10 * (y / 100) + y / 10 % 10;
    assert y / 100 == 10 * (y / 1000) + y / 100 % 10;
  }

  /** The two digits of `%m` or `%d` read back as the number. */
  lemma TwoValue(n: int)
    requires 0 <= n <= 99
    ensures var t := Two(n);
      && Text.IsDigit(t[0]) && Text.IsDigit(t[1])
      && 10 * DigitValue(t[0]) + DigitValue(t[1]) == n
  {
    DigitValueOf(n / 10);
    DigitValueOf(n % 10);
  }

  /** Reading back what `Format` wrote gives the same day. */
  lemma ParseFormat(d: Date)
    requires Valid(d) && d.year <= 9999
    ensures Parse(Format(d)) == Some(d)
  {
    var s := Format(d);
    var y, m, t := Year4(d.year), Two(d.month), Two(d.day);
    assert s == y + "-" + m + "-" + t;
    Year4Value(d.year);
    TwoValue(d.month);
    TwoValue(d.day);
    assert s[0] == y[0] && s[1] == y[1] && s[2] == y[2] && s[3] == y[3];
    assert s[5] == m[0] && s[6] == m[1] && s[8] == t[0] && s[9] == t[1];
    assert s[4] == '-' && s[7] == '-';
    assert DigitsAt(s, 0, 4) && DigitsAt(s, 5, 7) && DigitsAt(s, 8, 10);
  }

  lemma DigitRoundTrip(c: char)
    requires Text.IsDigit(c)
    ensures DigitChar(DigitValue(c)) == c
  {
  }

  lemma Year4Digits(a: int, b: int, c: int, e: int)
    requires 0 <= a <= 9 && 0 <= b <= 9 && 0 <= c <= 9 && 0 <= e <= 9
    ensures Year4(1000 * a + 100 * b + 10 * c + e) == [DigitChar(a), DigitChar(b), DigitChar(c), DigitChar(e)]
  {
    var y := 1000 * a + 100 * b + 10 * c + e;
    assert y / 1000 == a;
    assert y / 100 == 10 * a + b;
    assert y / 100 % 10 == b;
    assert y / 10 == 100 * a + 10 * b + c;
    assert y / 10 % 10 == c;
    assert y % 10 == e;
  }

  lemma TwoDigits(a: int, b: int)
    requires 0 <= a <= 9 && 0 <= b <= 9
    ensures Two(10 * a + b) == [DigitChar(a), DigitChar(b)]
  {
  }

  /** Whatever `Parse` accepts is exactly the text `Format` writes for that day. */
  lemma FormatParse(s: string)
    requires Parse(s).Some?
    ensures Format(Parse(s).value) == s
  {
    var d := Parse(s).value;
    Year4Digits(DigitValue(s[0]), DigitValue(s[1]), DigitValue(s[2]), DigitValue(s[3]));
    TwoDigits(DigitValue(s[5]), DigitValue(s[6]));
    TwoDigits(DigitValue(s[8]), DigitValue(s[9]));
    DigitRoundTrip(s[0]);
    DigitRoundTrip(s[1]);
    DigitRoundTrip(s[2]);
    DigitRoundTrip(s[3]);
    DigitRoundTrip(s[5]);
    DigitRoundTrip(s[6]);
    DigitRoundTrip(s[8]);
    DigitRoundTrip(s[9]);
    assert Year4(d.year) == s[..4];
    assert Two(d.month) == s[5..7];
    assert Two(d.day) == s[8..];
    assert s == s[..4] + "-" + s[5..7] + "-" + s[8..];
  }

  /** The fixed start of a crawl without a stored dataset. */
  const DefaultStartText := "2024-01-01"

  function DefaultStart(): (d: Date)
    ensures d == Date(2024, 1, 1)
  {
    var r := Parse(DefaultStartText);
    assert r == Some(Date(2024, 1, 1));
    r.value
  }

  /** A listing section's URL for one day: its base URL, the day as `%Y-%m-%d`, then `/`. */
  function DayUrl(base: string, d: Date): (url: string)
    requires Valid(d) && d.year <= 9999
    ensures |url| == |base| + 11
  {
    base + Format(d) + "/"
  }

  /**
   * A day's URL is the base, then the day's `%Y-%m-%d` text (which reads back as
   * the day), then `/`.
   */
  lemma DayUrlParts(base: string, d: Date)
    requires Valid(d) && d.year <= 9999
    ensures var url := DayUrl(base, d);
      && base <= url && url[|url| - 1] == '/'
      && Parse(url[|base|..|base| + 10]) == Some(d)
  {
    assert DayUrl(base, d)[|base|..|base| + 10] == Format(d);
    ParseFormat(d);
  }

  /** Different days give different URLs under the same base. */
  lemma DayUrlInjective(base: string, a: Date, b: Date)
    requires Valid(a) && a.year <= 9999 && Valid(b) && b.year <= 9999
    requires DayUrl(base, a) == DayUrl(base, b)
    ensures a == b
  {
    assert Format(a) == DayUrl(base, a)[|base|..|base| + 10];
    assert Format(b) == DayUrl(base, b)[|base|..|base| + 10];
    ParseFormat(a);
    ParseFormat(b);
  }
}
