/** Calendar dates as Python's `datetime.date` holds them: the proleptic
    Gregorian calendar from 0001-01-01 to 9999-12-31, month lengths and leap
    years as in section 5.7 and Appendix C of RFC 3339, the ordinal day
    number of `date.toordinal()`, and the `YYYY-MM-DD` text of section 5.6 of
    RFC 3339 (`full-date`), which is what `date.isoformat()` writes and what
    `strptime(s, "%Y-%m-%d")` reads. */
module Dates {
  import opened Common

  datatype Date = Date(year: int, month: int, day: int)

  const MaxYear: int := 9999
  /** `date(9999, 12, 31).toordinal()`. */
  const MaxOrdinal: int := 3652059

  predicate IsLeapYear(y: int) {
    y % 4 == 0 && (y % 100 != 0 || y % 400 == 0)
  }

  function DaysInMonth(y: int, m: int): int
    requires 1 <= m <= 12
  {
    if m == 2 then (if IsLeapYear(y) then 29 else 28)
    else if m == 4 || m == 6 || m == 9 || m == 11 then 30
    else 31
  }

  function DaysInYear(y: int): int {
    if IsLeapYear(y) then 366 else 365
  }

  predicate ValidDate(d: Date) {
    && 1 <= d.year <= MaxYear
    && 1 <= d.month <= 12
    && 1 <= d.day <= DaysInMonth(d.year, d.month)
  }

  /** Days in the years 1 .. y-1. */
  function DaysBeforeYear(y: int): int
    requires y >= 1
  {
    var p := y - 1;
    p * 365 + p / 4 - p / 100 + p / 400
  }

  /** Days in the months 1 .. m-1 of year y. */
  function DaysBeforeMonth(y: int, m: int): int
    requires 1 <= m <= 13
    decreases m
  {
    if m == 1 then 0 else DaysBeforeMonth(y, m - 1) + DaysInMonth(y, m - 1)
  }

  /** Day number of a date, 1 for 0001-01-01 (Python's `toordinal`). */
  function Ordinal(d: Date): int
    requires ValidDate(d)
  {
    DaysBeforeYear(d.year) + DaysBeforeMonth(d.year, d.month) + d.day
  }

  /** Python's comparison of dates: by year, then month, then day. */
  predicate DateLess(a: Date, b: Date) {
    a.year < b.year
    || (a.year == b.year && a.month < b.month)
    || (a.year == b.year && a.month == b.month && a.day < b.day)
  }

  predicate DateLessEq(a: Date, b: Date) {
    DateLess(a, b) || a == b
  }

  lemma YearLength(y: int)
    requires y >= 1
    ensures DaysBeforeYear(y + 1) == DaysBeforeYear(y) + DaysInYear(y)
  {
    var p := y - 1;
    assert (p + 1) / 4 == p / 4 + (if y % 4 == 0 then 1 else 0);
    assert (p + 1) / 100 == p / 100 + (if y % 100 == 0 then 1 else 0);
    assert (p + 1) / 400 == p / 400 + (if y % 400 == 0 then 1 else 0);
  }

  lemma MonthsFillYear(y: int)
    ensures DaysBeforeMonth(y, 13) == DaysInYear(y)
  {
  }

  lemma {:induction false} DaysBeforeMonthMonotone(y: int, m: int, n: int)
    requires 1 <= m <= n <= 13
    ensures DaysBeforeMonth(y, m) <= DaysBeforeMonth(y, n)
    decreases n - m
  {
    if m < n {
      DaysBeforeMonthMonotone(y, m, n - 1);
    }
  }

  lemma {:induction false} DaysBeforeYearMonotone(y: int, z: int)
    requires 1 <= y <= z
    ensures DaysBeforeYear(y) <= DaysBeforeYear(z)
    decreases z - y
  {
    if y < z {
      DaysBeforeYearMonotone(y, z - 1);
      YearLength(z - 1);
    }
  }

  /** A date lies inside its own year's and month's span of day numbers. */
  lemma OrdinalSpan(d: Date)
    requires ValidDate(d)
    ensures DaysBeforeYear(d.year) < Ordinal(d) <= DaysBeforeYear(d.year + 1)
    ensures DaysBeforeMonth(d.year, d.month) < Ordinal(d) - DaysBeforeYear(d.year) <= DaysBeforeMonth(d.year, d.month + 1)
  {
    YearLength(d.year);
    MonthsFillYear(d.year);
    DaysBeforeMonthMonotone(d.year, d.month + 1, 13);
  }

  /** Day numbers run in date order: the ordinal is strictly monotone. */
  lemma OrdinalStrictlyMonotone(a: Date, b: Date)
    requires ValidDate(a) && ValidDate(b) && DateLess(a, b)
    ensures Ordinal(a) < Ordinal(b)
  {
    if a.year < b.year {
      OrdinalAcrossYears(a, b);
    } else if a.month < b.month {
      OrdinalAcrossMonths(a, b);
    }
  }

  lemma OrdinalAcrossYears(a: Date, b: Date)
    requires ValidDate(a) && ValidDate(b) && a.year < b.year
    ensures Ordinal(a) < Ordinal(b)
  {
    OrdinalSpan(a);
    OrdinalSpan(b);
    DaysBeforeYearMonotone(a.year + 1, b.year);
  }

  lemma OrdinalAcrossMonths(a: Date, b: Date)
    requires ValidDate(a) && ValidDate(b) && a.year == b.year && a.month < b.month
    ensures Ordinal(a) < Ordinal(b)
  {
    OrdinalSpan(a);
    DaysBeforeMonthMonotone(a.year, a.month + 1, b.month);
  }

  /** Comparing dates as Python does is comparing their day numbers. */
  lemma OrdinalOrder(a: Date, b: Date)
    requires ValidDate(a) && ValidDate(b)
    ensures DateLessEq(a, b) <==> Ordinal(a) <= Ordinal(b)
    ensures a == b <==> Ordinal(a) == Ordinal(b)
  {
    if DateLess(a, b) {
      OrdinalStrictlyMonotone(a, b);
    } else if DateLess(b, a) {
      OrdinalStrictlyMonotone(b, a);
    }
  }

  lemma OrdinalRange(d: Date)
    requires ValidDate(d)
    ensures 1 <= Ordinal(d) <= MaxOrdinal
  {
    var last := Date(MaxYear, 12, 31);
    LastOrdinal();
    OrdinalSpan(d);
    if d != last {
      OrdinalStrictlyMonotone(d, last);
    }
  }

  /** The following day, or None where Python's `date + timedelta(1)`
      raises OverflowError. */
  function NextDay(d: Date): (r: Option<Date>)
    requires ValidDate(d)
    ensures r.Some? ==> ValidDate(r.value) && Ordinal(r.value) == Ordinal(d) + 1
    ensures r.None? <==> Ordinal(d) == MaxOrdinal
  {
    if d.day < DaysInMonth(d.year, d.month) then
      var e := Date(d.year, d.month, d.day + 1);
      DayAfter(d, e);
      Some(e)
    else if d.month < 12 then
      var e := Date(d.year, d.month + 1, 1);
      DayAfter(d, e);
      Some(e)
    else if d.year < MaxYear then
      var e := Date(d.year + 1, 1, 1);
      DayAfter(d, e);
      Some(e)
    else
      LastOrdinal();
      None
  }

  /** The three ways a day can follow another: within a month, into the next
      month, into the next year. */
  lemma DayAfter(d: Date, e: Date)
    requires ValidDate(d)
    requires || (d.day < DaysInMonth(d.year, d.month) && e == Date(d.year, d.month, d.day + 1))
             || (d.day == DaysInMonth(d.year, d.month) && d.month < 12 && e == Date(d.year, d.month + 1, 1))
             || (d.day == DaysInMonth(d.year, d.month) && d.month == 12 && d.year < MaxYear && e == Date(d.year + 1, 1, 1))
    ensures ValidDate(e) && Ordinal(e) == Ordinal(d) + 1 && Ordinal(d) != MaxOrdinal
  {
    if e.year == d.year + 1 {
      YearLength(d.year);
      MonthsFillYear(d.year);
    }
    OrdinalRange(e);
  }

  lemma LastOrdinal()
    ensures Ordinal(Date(MaxYear, 12, 31)) == MaxOrdinal
  {
  }

  /** `d + timedelta(n)` for a non-negative day count. */
  function AddDays(d: Date, n: nat): (r: Option<Date>)
    requires ValidDate(d)
    ensures r.Some? ==> ValidDate(r.value) && Ordinal(r.value) == Ordinal(d) + n
    ensures r.None? <==> Ordinal(d) + n > MaxOrdinal
    decreases n
  {
    OrdinalRange(d);
    if n == 0 then Some(d)
    else match NextDay(d)
      case None => None
      case Some(e) => AddDays(e, n - 1)
  }

  /** `date.fromordinal(n)`, or None where it raises. */
  function FromOrdinal(n: int): (r: Option<Date>)
    ensures r.Some? <==> 1 <= n <= MaxOrdinal
    ensures r.Some? ==> ValidDate(r.value) && Ordinal(r.value) == n
  {
    if n < 1 then None else AddDays(Date(1, 1, 1), n - 1)
  }

  /** `d - timedelta(days=n)`, or None where Python raises OverflowError. */
  function DaysBefore(d: Date, n: int): (r: Option<Date>)
    requires ValidDate(d)
    ensures r.Some? <==> 1 <= Ordinal(d) - n <= MaxOrdinal
    ensures r.Some? ==> ValidDate(r.value) && Ordinal(r.value) == Ordinal(d) - n
  {
    FromOrdinal(Ordinal(d) - n)
  }

  // ---- the YYYY-MM-DD text form ----

  predicate IsDigit(c: char) {
    48 <= c as int <= 57  // '0' .. '9'
  }

  function DigitChar(n: int): (c: char)
    requires 0 <= n <= 9
    ensures IsDigit(c)
  {
    (48 + n) as char
  }

  /** The number written by a string of decimal digits. */
  function DecimalValue(s: string): (v: nat)
    requires forall i :: 0 <= i < |s| ==> IsDigit(s[i])
    decreases |s|
  {
    if s == [] then 0
    else
      assert IsDigit(s[|s| - 1]);
      DecimalValue(s[..|s| - 1]) * 10 + (s[|s| - 1] as int - 48)
  }

  /** `n` in exactly `width` digits, zero-padded on the left (`%0<width>d`). */
  function Padded(n: nat, width: nat): (s: string)
    ensures |s| == width
    ensures forall i :: 0 <= i < |s| ==> IsDigit(s[i])
    decreases width
  {
    if width == 0 then [] else Padded(n / 10, width - 1) + [DigitChar(n % 10)]
  }

  function Pow10(k: nat): (p: nat)
    ensures p >= 1
  {
    if k == 0 then 1 else 10 * Pow10(k - 1)
  }

  lemma {:induction false} PaddedValue(n: nat, width: nat)
    requires n < Pow10(width)
    ensures DecimalValue(Padded(n, width)) == n
    decreases width
  {
    if width > 0 {
      var s := Padded(n, width);
      assert s[..|s| - 1] == Padded(n / 10, width - 1);
      PaddedValue(n / 10, width - 1);
    }
  }

  lemma {:induction false} ValuePadded(s: string)
    requires forall i :: 0 <= i < |s| ==> IsDigit(s[i])
    ensures DecimalValue(s) < Pow10(|s|)
    ensures Padded(DecimalValue(s), |s|) == s
    decreases |s|
  {
    if s != [] {
      var n := |s| - 1;
      ValuePadded(s[..n]);
      var v := DecimalValue(s);
      assert v / 10 == DecimalValue(s[..n]);
      assert DigitChar(v % 10) == s[n];
      assert s[..n] + [s[n]] == s;
    }
  }

  /** `date.isoformat()`. */
  function FormatIsoDate(d: Date): (s: string)
    requires ValidDate(d)
    ensures |s| == 10 && s[4] == '-' && s[7] == '-'
  {
    Padded(d.year, 4) + "-" + Padded(d.month, 2) + "-" + Padded(d.day, 2)
  }

  predicate DigitsAt(s: string, lo: int, hi: int)
    requires 0 <= lo <= hi <= |s|
  {
    forall i :: lo <= i < hi ==> IsDigit(s[i])
  }

  /** `strptime(s, "%Y-%m-%d").date()` on zero-padded input: four digits,
      '-', two digits, '-', two digits, naming a date that exists. */
  function ParseIsoDate(s: string): (r: Option<Date>)
    ensures r.Some? ==> ValidDate(r.value) && FormatIsoDate(r.value) == s
  {
    if |s| == 10 && s[4] == '-' && s[7] == '-' && DigitsAt(s, 0, 4) && DigitsAt(s, 5, 7) && DigitsAt(s, 8, 10) then
      var d := Date(DecimalValue(s[..4]), DecimalValue(s[5..7]), DecimalValue(s[8..]));
      if ValidDate(d) then
        ValuePadded(s[..4]);
        ValuePadded(s[5..7]);
        ValuePadded(s[8..]);
        assert s == s[..4] + "-" + s[5..7] + "-" + s[8..];
        Some(d)
      else None
    else None
  }

  /** Writing a date and reading it back gives the date. */
  lemma ParseFormat(d: Date)
    requires ValidDate(d)
    ensures ParseIsoDate(FormatIsoDate(d)) == Some(d)
  {
    var s := FormatIsoDate(d);
    assert Pow10(2) == 100 && Pow10(4) == 10000;
    assert s[..4] == Padded(d.year, 4);
    assert s[5..7] == Padded(d.month, 2);
    assert s[8..] == Padded(d.day, 2);
    PaddedValue(d.year, 4);
    PaddedValue(d.month, 2);
    PaddedValue(d.day, 2);
  }
}
