/**
 * Calendar arithmetic behind `addDays`: the day count of ECMA-262 section 21.4.1 (Day, MakeDay, YearFromTime),
 * its inverse, and the round trip through `Date.UTC` and `toISOString`.
 * Dafny's `/` and `%` by a positive divisor round toward minus infinity, as the standard's floor does.
 */
module CivilDate {
  import opened Common

  datatype Date = Date(year: int, month: int, day: int)

  predicate IsLeap(year: int) {
    year % 4 == 0 && (year % 100 != 0 || year % 400 == 0)
  }

  function DaysInMonth(leap: bool, month: int): int {
    if month == 2 then (if leap then 29 else 28)
    else if month == 4 || month == 6 || month == 9 || month == 11 then 30
    else 31
  }

  predicate Valid(d: Date) {
    1 <= d.month <= 12 && 1 <= d.day <= DaysInMonth(IsLeap(d.year), d.month)
  }

  /** The calendar's own successor. */
  function NextDay(d: Date): Date {
    if d.day < DaysInMonth(IsLeap(d.year), d.month) then d.(day := d.day + 1)
    else if d.month < 12 then Date(d.year, d.month + 1, 1)
    else Date(d.year + 1, 1, 1)
  }

  /** Day number of 1 January, counted from 1 January 1970 (DayFromYear). */
  function DayFromYear(year: int): int {
    365 * (year - 1970) + (year - 1969) / 4 - (year - 1901) / 100 + (year - 1601) / 400
  }

  /** Days of the year before the first of `month`. */
  function DaysBeforeMonth(leap: bool, month: int): int {
    var extra := if leap then 1 else 0;
    if month <= 1 then 0
    else if month == 2 then 31
    else if month == 3 then 59 + extra
    else if month == 4 then 90 + extra
    else if month == 5 then 120 + extra
    else if month == 6 then 151 + extra
    else if month == 7 then 181 + extra
    else if month == 8 then 212 + extra
    else if month == 9 then 243 + extra
    else if month == 10 then 273 + extra
    else if month == 11 then 304 + extra
    else 334 + extra
  }

  /** MakeDay for a one-based month: months carry into years, days into months. */
  function DayNumber(d: Date): int {
    var year := d.year + (d.month - 1) / 12;
    var month := (d.month - 1) % 12 + 1;
    DayFromYear(year) + DaysBeforeMonth(IsLeap(year), month) + d.day - 1
  }

  lemma KnownYears()
    ensures DayFromYear(1970) == 0 && DayFromYear(2000) == 10957 && DayFromYear(2024) == 19723
    ensures IsLeap(2000) && !IsLeap(2023) && IsLeap(2024)
  {
  }

  /** Days are counted from the first of January 1970; a leap day and the end of a leap year. */
  lemma KnownDays()
    ensures DayNumber(Date(1970, 1, 1)) == 0
    ensures DayNumber(Date(2000, 2, 29)) == 11016 && Valid(Date(2000, 2, 29))
    ensures DayNumber(Date(2024, 12, 31)) == 20088 && !Valid(Date(2023, 2, 29))
  {
    KnownYears();
    hide DayFromYear, IsLeap;
  }

  /** A quotient is known from its bounds. */
  lemma QuotientIs(x: int, k: int, q: int)
    requires 0 < k && k * q <= x < k * (q + 1)
    ensures x / k == q
  {
    var off := x / k - q;
    assert k * (x / k) == k * q + k * off;
    assert off >= 1 ==> k * off >= k;
    assert off <= -1 ==> k * off <= -k;
  }

  /** The count of multiples of `k` goes up by one just at a multiple of `k`. */
  lemma CountMultiples(x: int, shift: int, k: int)
    requires 1 < k
    ensures (x - shift * k) / k == (x - shift * k - 1) / k + (if x % k == 0 then 1 else 0)
  {
    var q, r := x / k, x % k;
    assert x == k * q + r;
    assert x - shift * k == k * (q - shift) + r;
    assert k * (q - shift + 1) == k * (q - shift) + k;
    QuotientIs(x - shift * k, k, q - shift);
    if r == 0 {
      assert k * (q - shift - 1) == k * (q - shift) - k;
      QuotientIs(x - shift * k - 1, k, q - shift - 1);
    } else {
      QuotientIs(x - shift * k - 1, k, q - shift);
    }
  }

  lemma YearLength(year: int)
    ensures DayFromYear(year + 1) == DayFromYear(year) + (if IsLeap(year) then 366 else 365)
  {
    CountMultiples(year, 492, 4);
    CountMultiples(year, 19, 100);
    CountMultiples(year, 4, 400);
    MultiplesOfMultiples(year);
  }

  lemma MultiplesOfMultiples(year: int)
    ensures year % 400 == 0 ==> year % 100 == 0
    ensures year % 100 == 0 ==> year % 4 == 0
  {
    var q, r := year / 400, year / 100;
    if year % 400 == 0 {
      assert year == 100 * (4 * q);
      QuotientIs(year, 100, 4 * q);
    }
    if year % 100 == 0 {
      assert year == 4 * (25 * r);
      QuotientIs(year, 4, 25 * r);
    }
  }

  /** The last year, going up from `year`, that starts no later than day `n`. */
  function YearUp(n: int, year: int): (y: int)
    requires DayFromYear(year) <= n
    ensures DayFromYear(y) <= n < DayFromYear(y + 1)
    decreases n - DayFromYear(year)
  {
    YearLength(year);
    if DayFromYear(year + 1) <= n then YearUp(n, year + 1) else year
  }

  function YearDown(n: int, year: int): (y: int)
    ensures DayFromYear(y) <= n < DayFromYear(y + 1)
    decreases DayFromYear(year) - n
  {
    YearLength(year - 1);
    if DayFromYear(year) <= n then YearUp(n, year) else YearDown(n, year - 1)
  }

  /** YearFromTime: the largest year that starts no later than day `n`. */
  function YearOf(n: int): (y: int)
    ensures DayFromYear(y) <= n < DayFromYear(y + 1)
  {
    YearDown(n, 1970)
  }

  function MonthOf(leap: bool, dayInYear: int): int {
    if dayInYear < DaysBeforeMonth(leap, 2) then 1
    else if dayInYear < DaysBeforeMonth(leap, 3) then 2
    else if dayInYear < DaysBeforeMonth(leap, 4) then 3
    else if dayInYear < DaysBeforeMonth(leap, 5) then 4
    else if dayInYear < DaysBeforeMonth(leap, 6) then 5
    else if dayInYear < DaysBeforeMonth(leap, 7) then 6
    else if dayInYear < DaysBeforeMonth(leap, 8) then 7
    else if dayInYear < DaysBeforeMonth(leap, 9) then 8
    else if dayInYear < DaysBeforeMonth(leap, 10) then 9
    else if dayInYear < DaysBeforeMonth(leap, 11) then 10
    else if dayInYear < DaysBeforeMonth(leap, 12) then 11
    else 12
  }

  /** The civil date that `toISOString` prints for day `n`. */
  function FromDayNumber(n: int): Date {
    var year := YearOf(n);
    var dayInYear := n - DayFromYear(year);
    var month := MonthOf(IsLeap(year), dayInYear);
    Date(year, month, dayInYear - DaysBeforeMonth(IsLeap(year), month) + 1)
  }

  lemma {:induction false} YearsAreOrdered(a: int, b: int)
    requires a < b
    ensures DayFromYear(a) < DayFromYear(b)
    decreases b - a
  {
    YearLength(b - 1);
    if a < b - 1 {
      YearsAreOrdered(a, b - 1);
    }
  }

  /** Only one year contains a given day. */
  lemma YearIsUnique(n: int, a: int, b: int)
    requires DayFromYear(a) <= n < DayFromYear(a + 1)
    requires DayFromYear(b) <= n < DayFromYear(b + 1)
    ensures a == b
  {
    if a < b {
      if a + 1 < b { YearsAreOrdered(a + 1, b); }
    } else if b < a {
      if b + 1 < a { YearsAreOrdered(b + 1, a); }
    }
  }

  /** A day of the year falls in the month that `MonthOf` names, and in no other. */
  lemma MonthSplit(leap: bool, dayInYear: int, month: int, day: int)
    requires 0 <= dayInYear < (if leap then 366 else 365)
    ensures 1 <= MonthOf(leap, dayInYear) <= 12
    ensures 0 <= dayInYear - DaysBeforeMonth(leap, MonthOf(leap, dayInYear))
               < DaysInMonth(leap, MonthOf(leap, dayInYear))
    ensures (1 <= month <= 12 && 1 <= day <= DaysInMonth(leap, month)
             && dayInYear == DaysBeforeMonth(leap, month) + day - 1)
            ==> month == MonthOf(leap, dayInYear)
  {
  }

  /** The days before a month and those of the month stay inside the year, and months follow one another. */
  lemma MonthBounds(leap: bool, month: int)
    requires 1 <= month <= 12
    ensures 0 <= DaysBeforeMonth(leap, month)
    ensures DaysBeforeMonth(leap, month) + DaysInMonth(leap, month)
         == if month == 12 then (if leap then 366 else 365) else DaysBeforeMonth(leap, month + 1)
    ensures DaysBeforeMonth(leap, month) + DaysInMonth(leap, month) <= if leap then 366 else 365
  {
  }

  /** Without a month to carry, the day number is year, month and day added up. */
  lemma DayNumberInYear(d: Date)
    requires 1 <= d.month <= 12
    ensures DayNumber(d) == DayFromYear(d.year) + DaysBeforeMonth(IsLeap(d.year), d.month) + d.day - 1
  {
    assert (d.month - 1) / 12 == 0;
  }

  /** Day number to civil date and back. */
  lemma DayNumberOfFromDayNumber(n: int)
    ensures Valid(FromDayNumber(n)) && DayNumber(FromDayNumber(n)) == n
  {
    hide DayFromYear, IsLeap;
    var year := YearOf(n);
    YearLength(year);
    MonthSplit(IsLeap(year), n - DayFromYear(year), 1, 1);
    DayNumberInYear(FromDayNumber(n));
  }

  /** Civil date to day number and back. */
  lemma FromDayNumberOfDayNumber(d: Date)
    requires Valid(d)
    ensures FromDayNumber(DayNumber(d)) == d
  {
    hide DayFromYear, IsLeap;
    var leap := IsLeap(d.year);
    YearLength(d.year);
    MonthBounds(leap, d.month);
    DayNumberInYear(d);
    YearIsUnique(DayNumber(d), YearOf(DayNumber(d)), d.year);
    MonthSplit(leap, DayNumber(d) - DayFromYear(d.year), d.month, d.day);
  }

  /** Counting one day further is the calendar's own successor, over month ends and leap years. */
  lemma DayNumberOfNextDay(d: Date)
    requires Valid(d)
    ensures Valid(NextDay(d)) && DayNumber(NextDay(d)) == DayNumber(d) + 1
  {
    hide DayFromYear, IsLeap;
    YearLength(d.year);
    MonthBounds(IsLeap(d.year), d.month);
    DayNumberInYear(d);
    DayNumberInYear(NextDay(d));
  }

  /** `Date.UTC` reads a year from 0 to 99 as 1900 to 1999. */
  function ReadYear(year: int): int {
    if 0 <= year <= 99 then 1900 + year else year
  }

  /** The day that `Date.UTC` makes of the parts of a date text. */
  function UtcDay(d: Date): int {
    DayNumber(d.(year := ReadYear(d.year)))
  }

  /** The ten characters `toISOString` starts with are a date text only for years 0 to 9999. */
  function IsoDate(n: int): Option<Date> {
    var d := FromDayNumber(n);
    if 0 <= d.year <= 9999 then Some(d) else None
  }

  /** Reading a year below 100 moves the date by whole centuries. */
  lemma RemappedYearIsLater(d: Date)
    requires Valid(d) && 0 <= d.year < 100
    ensures DayNumber(d) < UtcDay(d)
  {
    hide DayFromYear;
    YearLength(d.year);
    MonthBounds(IsLeap(d.year), d.month);
    MonthBounds(IsLeap(d.year + 1900), d.month);
    DayNumberInYear(d);
    DayNumberInYear(d.(year := d.year + 1900));
    YearsAreOrdered(d.year + 1, d.year + 1900);
  }

  /** `addDays` on the parts of a date text. */
  function AddDays(d: Date, days: int): Option<Date> {
    IsoDate(UtcDay(d) + days)
  }

  /** Adding nothing gives the date back exactly when `Date.UTC` does not remap its year. */
  lemma AddDaysZero(d: Date)
    requires Valid(d) && 0 <= d.year <= 9999
    ensures AddDays(d, 0) == Some(d) <==> 100 <= d.year
  {
    hide DayFromYear, IsLeap;
    DayNumberOfFromDayNumber(UtcDay(d));
    FromDayNumberOfDayNumber(d);
    if d.year < 100 {
      RemappedYearIsLater(d);
    }
  }

  /** One more day is the calendar successor of the shorter sum. */
  lemma AddDaysSuccessor(d: Date, days: int)
    requires AddDays(d, days).Some? && AddDays(d, days + 1).Some?
    ensures AddDays(d, days + 1).value == NextDay(AddDays(d, days).value)
  {
    hide DayFromYear, IsLeap, DayNumber, FromDayNumber, NextDay;
    var n := UtcDay(d) + days;
    DayNumberOfFromDayNumber(n);
    DayNumberOfNextDay(FromDayNumber(n));
    FromDayNumberOfDayNumber(NextDay(FromDayNumber(n)));
  }

  /** Adding `a` and then `b` days is adding `a + b` days exactly when the date in between has a year from 100 on. */
  lemma AddDaysAdds(d: Date, a: int, b: int)
    requires AddDays(d, a).Some? && AddDays(d, a + b).Some?
    ensures AddDays(AddDays(d, a).value, b) == AddDays(d, a + b) <==> 100 <= AddDays(d, a).value.year
  {
    hide DayFromYear, IsLeap, DayNumber, FromDayNumber;
    var n := UtcDay(d) + a;
    var mid := AddDays(d, a).value;
    DayNumberOfFromDayNumber(n);
    DayNumberOfFromDayNumber(n + b);
    DayNumberOfFromDayNumber(UtcDay(mid) + b);
    assert DayNumber(mid) == n;
    if mid.year < 100 {
      RemappedYearIsLater(mid);
    } else {
      assert UtcDay(mid) == DayNumber(mid);
    }
  }
}
