/**
 The proleptic Gregorian calendar that Python's `datetime` uses, and the
 conversion between a civil date and a day count relative to 1970-01-01.

 `DaysFromCivil` counts days through March-based years (a year running from
 March 1 to the end of February, so that the leap day comes last) grouped in
 400-year eras of 146097 days. `CivilFromDays` undoes it by peeling off
 100-year, 4-year and 1-year periods, as CPython's ordinal-to-date routine
 does. Both directions are proved inverse on valid dates, and the count
 is pinned to real days: 1970-01-01 is day 0, and the next calendar day is
 always one more.
 */
module Calendar {

  datatype Date = Date(year: int, month: int, day: int)

  predicate IsLeapYear(y: int) {
    y % 4 == 0 && (y % 100 != 0 || y % 400 == 0)
  }

  function DaysInMonth(y: int, m: int): (n: int)
    requires 1 <= m <= 12
    ensures 28 <= n <= 31
    ensures n == 29 <==> m == 2 && IsLeapYear(y)
  {
    if m == 2 then (if IsLeapYear(y) then 29 else 28)
    else if m == 4 || m == 6 || m == 9 || m == 11 then 30
    else 31
  }

  /** A date that exists in the calendar; the year is unrestricted here. */
  predicate IsCalendarDate(d: Date) {
    1 <= d.month <= 12 && 1 <= d.day <= DaysInMonth(d.year, d.month)
  }

  /** Index of month m in a March-based year: March is 0, February is 11. */
  function MarchMonth(m: int): (mp: int)
    requires 1 <= m <= 12
    ensures 0 <= mp <= 11
  {
    if m > 2 then m - 3 else m + 9
  }

  /** Days of a March-based year that precede month index mp. */
  function DaysBeforeMarchMonth(mp: int): int {
    (153 * mp + 2) / 5
  }

  /** Days of a 400-year era that precede its March-based year yoe. */
  function DaysBeforeMarchYear(yoe: int): int {
    365 * yoe + yoe / 4 - yoe / 100
  }

  /** The 400-year era (counted from 0000-03-01) in which d falls, and the
      day of that era on which it falls. */
  function EraAndDay(d: Date): (int, int)
    requires 1 <= d.month <= 12
  {
    var y := if d.month <= 2 then d.year - 1 else d.year;
    (y / 400, DaysBeforeMarchYear(y % 400) + DaysBeforeMarchMonth(MarchMonth(d.month)) + d.day - 1)
  }

  /** Days from 1970-01-01 to d (negative before the epoch). An era has
      146097 days, and 0000-03-01 lies 719468 days before the epoch. */
  function DaysFromCivil(d: Date): int
    requires 1 <= d.month <= 12
  {
    EraAndDay(d).0 * 146097 + EraAndDay(d).1 - 719468
  }

  function Min(a: int, b: int): int {
    if a <= b then a else b
  }

  /** Splits a day of a 400-year era into its March-based year of the era
      and the day of that year, by peeling off 100-year, 4-year and 1-year
      periods (the last period of each kind is one day longer). */
  function YearAndDayOfEra(doe: int): (int, int) {
    var c := Min(doe / 36524, 3);
    var r1 := doe - 36524 * c;
    var q := r1 / 1461;
    var r2 := r1 % 1461;
    var yy := Min(r2 / 365, 3);
    (100 * c + 4 * q + yy, r2 - 365 * yy)
  }

  /** Splits a day of a March-based year into a month and a day of month. */
  function MonthAndDay(doy: int): (int, int) {
    var mp := (5 * doy + 2) / 153;
    (if mp < 10 then mp + 3 else mp - 9, doy - DaysBeforeMarchMonth(mp) + 1)
  }

  /** The date on day doe of the 400-year era numbered era. */
  function DateOfEraDay(era: int, doe: int): Date {
    var (yoe, doy) := YearAndDayOfEra(doe);
    var (month, day) := MonthAndDay(doy);
    Date(era * 400 + yoe + (if month <= 2 then 1 else 0), month, day)
  }

  /** The date that lies z days after 1970-01-01. */
  function CivilFromDays(z: int): Date {
    DateOfEraDay((z + 719468) / 146097, (z + 719468) % 146097)
  }

  /** A day of a March-based year; only a year followed by a leap February
      has a day 365. */
  predicate IsMarchDay(doy: int, leap: bool) {
    0 <= doy <= 365 && (doy == 365 ==> leap)
  }

  /** A March-based year yoe = 100c + 4q + yy starts 36524c + 1461q + 365yy
      days into its era. */
  lemma DaysBeforeMarchYearSplit(c: int, q: int, yy: int)
    requires 0 <= c <= 3 && 0 <= q <= 24 && 0 <= yy <= 3
    ensures DaysBeforeMarchYear(100 * c + 4 * q + yy) == 36524 * c + 1461 * q + 365 * yy
  {
    var yoe := 100 * c + 4 * q + yy;
    assert yoe / 4 == 25 * c + q;
    assert yoe / 100 == c;
  }

  /** Every day of an era falls on a day of one of its 400 years. */
  lemma YearAndDayOfEraSound(doe: int)
    requires 0 <= doe < 146097
    ensures var (yoe, doy) := YearAndDayOfEra(doe);
            && 0 <= yoe < 400
            && IsMarchDay(doy, IsLeapYear(yoe + 1))
            && DaysBeforeMarchYear(yoe) + doy == doe
  {
    var c := Min(doe / 36524, 3);
    var r1 := doe - 36524 * c;
    assert 0 <= r1 <= 36524;
    assert r1 == 36524 ==> c == 3;
    var q := r1 / 1461;
    var r2 := r1 % 1461;
    assert 0 <= q <= 24;
    var yy := Min(r2 / 365, 3);
    var doy := r2 - 365 * yy;
    var yoe := 100 * c + 4 * q + yy;
    DaysBeforeMarchYearSplit(c, q, yy);
    YearAndDayOfEraParts(doe, c, q, r2, yy);
    if doy == 365 {
      assert yy == 3 && r2 == 1460;
      assert q == 24 ==> c == 3;
      LeapAtCycleEnd(c, q);
    }
  }

  /** The last year of a 4-year cycle is leap, unless it closes a century
      other than the last of the era. */
  lemma LeapAtCycleEnd(c: int, q: int)
    requires 0 <= c <= 3 && 0 <= q <= 24 && (q == 24 ==> c == 3)
    ensures IsLeapYear(100 * c + 4 * q + 4)
  {
    var x := 100 * c + 4 * q + 4;
    assert x == 4 * (25 * c + q + 1);
    if q == 24 {
      assert x == 400;
    } else {
      assert x == 100 * c + 4 * (q + 1) && 4 * (q + 1) < 100;
      assert x % 100 != 0;
    }
  }

  /** A day of one of the 400 years of an era is split back into that year
      and day. */
  lemma {:induction false} YearAndDayOfEraComplete(yoe: int, doy: int)
    requires 0 <= yoe < 400
    requires IsMarchDay(doy, IsLeapYear(yoe + 1))
    ensures YearAndDayOfEra(DaysBeforeMarchYear(yoe) + doy) == (yoe, doy)
  {
    var c := yoe / 100;
    var q := (yoe % 100) / 4;
    var yy := yoe % 4;
    assert yoe == 100 * c + 4 * q + yy;
    DaysBeforeMarchYearSplit(c, q, yy);
    var doe := DaysBeforeMarchYear(yoe) + doy;
    YearAndDayOfEraDivisions(c, q, yy, doy);
    YearAndDayOfEraParts(doe, c, q, 365 * yy + doy, yy);
  }

  /** The divisions `YearAndDayOfEra` makes recover the century, the 4-year
      cycle and the year within it. */
  lemma YearAndDayOfEraDivisions(c: int, q: int, yy: int, doy: int)
    requires 0 <= c <= 3 && 0 <= q <= 24 && 0 <= yy <= 3
    requires IsMarchDay(doy, IsLeapYear(100 * c + 4 * q + yy + 1))
    ensures var doe := 36524 * c + 1461 * q + 365 * yy + doy;
            && Min(doe / 36524, 3) == c
            && (doe - 36524 * c) / 1461 == q
            && (doe - 36524 * c) % 1461 == 365 * yy + doy
            && Min((365 * yy + doy) / 365, 3) == yy
  {
    var doe := 36524 * c + 1461 * q + 365 * yy + doy;
    var rest := 1461 * q + 365 * yy + doy;
    assert 0 <= rest && (c < 3 ==> rest < 36524) by {
      if doy == 365 {
        assert yy == 3;
        assert q == 24 ==> c == 3;
      }
    }
    assert Min(doe / 36524, 3) == c by {
      if c < 3 {
        assert doe / 36524 == c;
      } else {
        assert doe / 36524 >= 3;
      }
    }
    assert rest / 1461 == q && rest % 1461 == 365 * yy + doy by {
      assert 0 <= 365 * yy + doy < 1461;
    }
  }

  lemma YearAndDayOfEraParts(doe: int, c: int, q: int, r2: int, yy: int)
    requires Min(doe / 36524, 3) == c
    requires (doe - 36524 * c) / 1461 == q && (doe - 36524 * c) % 1461 == r2
    requires Min(r2 / 365, 3) == yy
    ensures YearAndDayOfEra(doe) == (100 * c + 4 * q + yy, r2 - 365 * yy)
  {
  }

  /** Days of a March-based year are split into a calendar month and day,
      and the split is undone by counting the days before the month. */
  lemma MonthAndDaySound(doy: int, leap: bool)
    requires IsMarchDay(doy, leap)
    ensures var (month, day) := MonthAndDay(doy);
            && 1 <= month <= 12
            && DaysBeforeMarchMonth(MarchMonth(month)) + day - 1 == doy
            && 1 <= day
            && day <= (if month == 2 then (if leap then 29 else 28) else DaysInMonth(0, month))
  {
    var mp := (5 * doy + 2) / 153;
    assert 0 <= mp <= 11;
    if mp == 0 { assert doy < 31; }
    else if mp == 1 { assert 31 <= doy < 61; }
    else if mp == 2 { assert 61 <= doy < 92; }
    else if mp == 3 { assert 92 <= doy < 122; }
    else if mp == 4 { assert 122 <= doy < 153; }
    else if mp == 5 { assert 153 <= doy < 184; }
    else if mp == 6 { assert 184 <= doy < 214; }
    else if mp == 7 { assert 214 <= doy < 245; }
    else if mp == 8 { assert 245 <= doy < 275; }
    else if mp == 9 { assert 275 <= doy < 306; }
    else if mp == 10 { assert 306 <= doy < 337; }
    else { assert 337 <= doy; }
  }

  /** A calendar month and day are found again from their day of the
      March-based year. */
  lemma MonthAndDayComplete(month: int, day: int, leap: bool)
    requires 1 <= month <= 12 && 1 <= day
    requires day <= (if month == 2 then (if leap then 29 else 28) else DaysInMonth(0, month))
    ensures var doy := DaysBeforeMarchMonth(MarchMonth(month)) + day - 1;
            && IsMarchDay(doy, leap)
            && MonthAndDay(doy) == (month, day)
  {
    var mp := MarchMonth(month);
    var doy := DaysBeforeMarchMonth(mp) + day - 1;
    if mp == 0 {
      assert DaysBeforeMarchMonth(0) == 0 && (5 * doy + 2) / 153 == 0;
    } else if mp == 1 {
      assert DaysBeforeMarchMonth(1) == 31 && (5 * doy + 2) / 153 == 1;
    } else if mp == 2 {
      assert DaysBeforeMarchMonth(2) == 61 && (5 * doy + 2) / 153 == 2;
    } else if mp == 3 {
      assert DaysBeforeMarchMonth(3) == 92 && (5 * doy + 2) / 153 == 3;
    } else if mp == 4 {
      assert DaysBeforeMarchMonth(4) == 122 && (5 * doy + 2) / 153 == 4;
    } else if mp == 5 {
      assert DaysBeforeMarchMonth(5) == 153 && (5 * doy + 2) / 153 == 5;
    } else if mp == 6 {
      assert DaysBeforeMarchMonth(6) == 184 && (5 * doy + 2) / 153 == 6;
    } else if mp == 7 {
      assert DaysBeforeMarchMonth(7) == 214 && (5 * doy + 2) / 153 == 7;
    } else if mp == 8 {
      assert DaysBeforeMarchMonth(8) == 245 && (5 * doy + 2) / 153 == 8;
    } else if mp == 9 {
      assert DaysBeforeMarchMonth(9) == 275 && (5 * doy + 2) / 153 == 9;
    } else if mp == 10 {
      assert DaysBeforeMarchMonth(10) == 306 && (5 * doy + 2) / 153 == 10;
    } else {
      assert DaysBeforeMarchMonth(11) == 337 && (5 * doy + 2) / 153 == 11;
    }
  }

  /** A year of an era, shifted by whole eras, is split back into the era
      and the year of era. */
  lemma EraOfYear(era: int, yoe: int)
    requires 0 <= yoe < 400
    ensures (400 * era + yoe) / 400 == era && (400 * era + yoe) % 400 == yoe
  {
  }

  /** The era and day of era of a date whose March-based year is year yoe
      of era `era`, on day doy of that year. */
  lemma EraAndDayOf(d: Date, era: int, yoe: int, doy: int)
    requires 1 <= d.month <= 12 && 0 <= yoe < 400
    requires (if d.month <= 2 then d.year - 1 else d.year) == 400 * era + yoe
    requires DaysBeforeMarchMonth(MarchMonth(d.month)) + d.day - 1 == doy
    ensures EraAndDay(d) == (era, DaysBeforeMarchYear(yoe) + doy)
  {
    EraOfYear(era, yoe);
  }

  /** The date on a day of an era is a calendar date, and it lies as many
      days from the epoch as the era and the day say. */
  lemma {:induction false} DateOfEraDaySound(era: int, doe: int)
    requires 0 <= doe < 146097
    ensures IsCalendarDate(DateOfEraDay(era, doe))
    ensures DaysFromCivil(DateOfEraDay(era, doe)) == era * 146097 + doe - 719468
  {
    YearAndDayOfEraSound(doe);
    var (yoe, doy) := YearAndDayOfEra(doe);
    var leap := IsLeapYear(yoe + 1);
    MonthAndDaySound(doy, leap);
    var (month, day) := MonthAndDay(doy);
    DateOfEraDayParts(era, doe, yoe, doy, month, day);
    var year := era * 400 + yoe + (if month <= 2 then 1 else 0);
    var d := Date(year, month, day);
    assert DateOfEraDay(era, doe) == d;
    EraAndDayOf(d, era, yoe, doy);
    assert DaysFromCivil(d) == era * 146097 + DaysBeforeMarchYear(yoe) + doy - 719468;
    MarchDayInMonth(era, yoe, month, day, leap);
  }

  /** A day that fits its month in the March-based year yoe of an era fits
      it in the calendar year too: the February of a March-based year is in
      the next calendar year, whose leapness the era does not change. */
  lemma MarchDayInMonth(era: int, yoe: int, month: int, day: int, leap: bool)
    requires leap == IsLeapYear(yoe + 1)
    requires 1 <= month <= 12 && 1 <= day
    requires day <= (if month == 2 then (if leap then 29 else 28) else DaysInMonth(0, month))
    ensures IsCalendarDate(Date(era * 400 + yoe + (if month <= 2 then 1 else 0), month, day))
  {
    var year := era * 400 + yoe + (if month <= 2 then 1 else 0);
    if month == 2 {
      assert year == yoe + 1 + 400 * era;
      LeapYearPeriodic(yoe + 1, era);
      assert DaysInMonth(year, month) == (if leap then 29 else 28);
    } else {
      assert DaysInMonth(year, month) == DaysInMonth(0, month);
    }
  }

  /** The day count of day doe of an era, converted back, is that day of
      that era. */
  lemma CivilFromEraDay(z: int, era: int, doe: int)
    requires 0 <= doe < 146097 && z == era * 146097 + doe - 719468
    ensures CivilFromDays(z) == DateOfEraDay(era, doe)
  {
    EraDivision(era, doe);
    assert (z + 719468) / 146097 == era && (z + 719468) % 146097 == doe;
  }

  /** Every day count names a calendar date, and counting the days to that
      date gives the count back. */
  lemma {:induction false} CivilFromDaysInverse(z: int)
    ensures IsCalendarDate(CivilFromDays(z))
    ensures DaysFromCivil(CivilFromDays(z)) == z
  {
    DateOfEraDaySound((z + 719468) / 146097, (z + 719468) % 146097);
  }

  lemma DateOfEraDayParts(era: int, doe: int, yoe: int, doy: int, month: int, day: int)
    requires YearAndDayOfEra(doe) == (yoe, doy) && MonthAndDay(doy) == (month, day)
    ensures DateOfEraDay(era, doe) == Date(era * 400 + yoe + (if month <= 2 then 1 else 0), month, day)
  {
  }

  /** The March-based year of a calendar date, its year of era and its day
      of that year; the day is a day of the March-based year, and it is
      split back into the date's month and day. */
  lemma MarchDayOfDate(d: Date) returns (y: int, yoe: int, doy: int)
    requires IsCalendarDate(d)
    ensures y == (if d.month <= 2 then d.year - 1 else d.year) && yoe == y % 400
    ensures doy == DaysBeforeMarchMonth(MarchMonth(d.month)) + d.day - 1
    ensures 0 <= yoe < 400 && IsMarchDay(doy, IsLeapYear(yoe + 1))
    ensures MonthAndDay(doy) == (d.month, d.day)
  {
    y := if d.month <= 2 then d.year - 1 else d.year;
    yoe := y % 400;
    doy := DaysBeforeMarchMonth(MarchMonth(d.month)) + d.day - 1;
    if d.month == 2 {
      MarchYearLeap(d.year);
    }
    MonthAndDayComplete(d.month, d.day, IsLeapYear(yoe + 1));
  }

  /** A calendar date lies on a day of its era, and the date on that day
      of that era is the date itself. */
  lemma EraAndDayComplete(d: Date)
    requires IsCalendarDate(d)
    ensures 0 <= EraAndDay(d).1 < 146097
    ensures DateOfEraDay(EraAndDay(d).0, EraAndDay(d).1) == d
  {
    var y, yoe, doy := MarchDayOfDate(d);
    var era := y / 400;
    var doe := DaysBeforeMarchYear(yoe) + doy;
    EraAndDayOf(d, era, yoe, doy);
    YearAndDayOfEraComplete(yoe, doy);
    YearAndDayOfEraSound(doe);
    DateOfEraDayParts(era, doe, yoe, doy, d.month, d.day);
    assert era * 400 + yoe == y;
  }

  /** The March-based year that ends in the February of a year is leap
      exactly when that year is: its year of era plus one is the year,
      shifted by whole eras. */
  lemma MarchYearLeap(year: int)
    ensures IsLeapYear((year - 1) % 400 + 1) == IsLeapYear(year)
  {
    var y := year - 1;
    assert y % 400 + 1 + 400 * (y / 400) == year;
    LeapYearPeriodic(y % 400 + 1, y / 400);
  }

  /** A whole number of eras plus a day of an era is split back into the
      two. */
  lemma EraDivision(era: int, doe: int)
    requires 0 <= doe < 146097
    ensures (era * 146097 + doe) / 146097 == era
    ensures (era * 146097 + doe) % 146097 == doe
  {
  }

  /** Counting the days to a calendar date and converting back gives the
      same date. */
  lemma {:induction false} DaysFromCivilInverse(d: Date)
    requires IsCalendarDate(d)
    ensures CivilFromDays(DaysFromCivil(d)) == d
  {
    EraAndDayComplete(d);
    CivilFromEraDay(DaysFromCivil(d), EraAndDay(d).0, EraAndDay(d).1);
  }

  /** Day 0 is 1970-01-01: it falls on day 135080 of era 4, which starts
      584388 days after 0000-03-01. */
  lemma EpochIsDayZero()
    ensures DaysFromCivil(Date(1970, 1, 1)) == 0
    ensures CivilFromDays(0) == Date(1970, 1, 1)
  {
    var d := Date(1970, 1, 1);
    assert DaysBeforeMarchYear(369) == 134774;
    assert DaysBeforeMarchMonth(MarchMonth(1)) == 306;
    EraAndDayOf(d, 4, 369, 306);
    DaysFromCivilInverse(d);
  }

  /** The calendar day after d: the next day of its month, else the first
      of the next month, else January 1 of the next year. */
  function NextDay(d: Date): Date
    requires 1 <= d.month <= 12
  {
    if d.day < DaysInMonth(d.year, d.month) then Date(d.year, d.month, d.day + 1)
    else if d.month < 12 then Date(d.year, d.month + 1, 1)
    else Date(d.year + 1, 1, 1)
  }

  /** The day after a calendar date is a calendar date, and it counts one
      day more: together with `EpochIsDayZero`, this pins the day count of
      every date to the number of days since 1970-01-01. */
  lemma {:induction false} DaysFromCivilNext(d: Date)
    requires IsCalendarDate(d)
    ensures IsCalendarDate(NextDay(d))
    ensures DaysFromCivil(NextDay(d)) == DaysFromCivil(d) + 1
  {
    var n := NextDay(d);
    if d.day < DaysInMonth(d.year, d.month) {
      assert n == Date(d.year, d.month, d.day + 1);
      DayStep(d);
    } else if d.month == 2 {
      assert d == Date(d.year, 2, DaysInMonth(d.year, 2));
      assert n == Date(d.year, 3, 1);
      FebruaryEnds(d.year);
    } else if d.month < 12 {
      assert n == Date(d.year, d.month + 1, 1);
      MonthEnds(d);
    } else {
      assert d == Date(d.year, 12, 31) && n == Date(d.year + 1, 1, 1);
      YearEnds(d.year);
    }
  }

  /** A day before the end of its month is followed by the next day of the
      month. */
  lemma DayStep(d: Date)
    requires IsCalendarDate(d) && d.day < DaysInMonth(d.year, d.month)
    ensures DaysFromCivil(Date(d.year, d.month, d.day + 1)) == DaysFromCivil(d) + 1
  {
    DaysFromCivilOfMarchYear(d);
    DaysFromCivilOfMarchYear(Date(d.year, d.month, d.day + 1));
  }

  /** The last day of a month other than February and December is followed
      by the first of the next month, in the same March-based year. */
  lemma MonthEnds(d: Date)
    requires 1 <= d.month < 12 && d.month != 2 && d.day == DaysInMonth(d.year, d.month)
    ensures DaysFromCivil(Date(d.year, d.month + 1, 1)) == DaysFromCivil(d) + 1
  {
    DaysFromCivilOfMarchYear(d);
    DaysFromCivilOfMarchYear(Date(d.year, d.month + 1, 1));
    MonthStep(d.month);
  }

  /** December 31 is followed by January 1 of the next year, which belongs
      to the same March-based year. */
  lemma YearEnds(year: int)
    ensures DaysFromCivil(Date(year + 1, 1, 1)) == DaysFromCivil(Date(year, 12, 31)) + 1
  {
    DaysFromCivilOfMarchYear(Date(year, 12, 31));
    DaysFromCivilOfMarchYear(Date(year + 1, 1, 1));
    assert DaysBeforeMarchMonth(MarchMonth(12)) == 275;
    assert DaysBeforeMarchMonth(MarchMonth(1)) == 306;
  }

  /** The day count after z is the day after the date of z. */
  lemma {:induction false} CivilFromDaysNext(z: int)
    ensures CivilFromDays(z + 1) == NextDay(CivilFromDays(z))
  {
    var d := CivilFromDays(z);
    CivilFromDaysInverse(z);
    DaysFromCivilNext(d);
    CivilFromDaysOf(z + 1, NextDay(d));
  }

  /** The day count of a calendar date converts back to that date. */
  lemma {:induction false} CivilFromDaysOf(z: int, d: Date)
    requires IsCalendarDate(d) && DaysFromCivil(d) == z
    ensures CivilFromDays(z) == d
  {
    DaysFromCivilInverse(d);
  }

  /** Days from 0000-03-01 to March 1 of the March-based year y. */
  function MarchYearStart(y: int): int {
    y / 400 * 146097 + DaysBeforeMarchYear(y % 400)
  }

  /** The day count of a date from the start of its March-based year. */
  lemma DaysFromCivilOfMarchYear(d: Date)
    requires 1 <= d.month <= 12
    ensures DaysFromCivil(d)
            == MarchYearStart(if d.month <= 2 then d.year - 1 else d.year)
               + DaysBeforeMarchMonth(MarchMonth(d.month)) + d.day - 1 - 719468
  {
  }

  /** A March-based year has 366 days when the February that ends it is
      leap, and 365 otherwise; the last year of an era ends in a leap
      February, although `DaysBeforeMarchYear(400)` stops one day short of
      a whole era. */
  lemma MarchYearLength(y: int)
    ensures MarchYearStart(y + 1) == MarchYearStart(y) + (if IsLeapYear(y + 1) then 366 else 365)
  {
    var era, yoe := y / 400, y % 400;
    assert y + 1 == (yoe + 1) + 400 * era;
    LeapYearPeriodic(yoe + 1, era);
    if yoe < 399 {
      assert (y + 1) / 400 == era && (y + 1) % 400 == yoe + 1;
      DaysBeforeMarchYearStep(yoe);
    } else {
      assert (y + 1) / 400 == era + 1 && (y + 1) % 400 == 0;
      assert DaysBeforeMarchYear(399) == 145731;
      assert IsLeapYear(400);
    }
  }

  /** Within an era, each March-based year adds the days of one year. */
  lemma DaysBeforeMarchYearStep(yoe: int)
    requires 0 <= yoe < 399
    ensures DaysBeforeMarchYear(yoe + 1)
            == DaysBeforeMarchYear(yoe) + (if IsLeapYear(yoe + 1) then 366 else 365)
  {
    var a := yoe + 1;
    assert a / 4 == yoe / 4 + (if a % 4 == 0 then 1 else 0);
    assert a / 100 == yoe / 100 + (if a % 100 == 0 then 1 else 0);
    assert a % 400 != 0;
  }

  /** The last day of February is followed by March 1, one day later. */
  lemma FebruaryEnds(year: int)
    ensures DaysFromCivil(Date(year, 3, 1))
            == DaysFromCivil(Date(year, 2, DaysInMonth(year, 2))) + 1
  {
    DaysFromCivilOfMarchYear(Date(year, 3, 1));
    DaysFromCivilOfMarchYear(Date(year, 2, DaysInMonth(year, 2)));
    MarchYearLength(year - 1);
    assert DaysBeforeMarchMonth(MarchMonth(2)) == 337;
    assert DaysBeforeMarchMonth(MarchMonth(3)) == 0;
  }

  /** Every month but February and December is followed, in the same
      March-based year, by a month that starts its days later. */
  lemma MonthStep(m: int)
    requires 1 <= m < 12 && m != 2
    ensures DaysBeforeMarchMonth(MarchMonth(m + 1))
            == DaysBeforeMarchMonth(MarchMonth(m)) + DaysInMonth(0, m)
  {
  }

  /** Shifting a year by whole 400-year eras keeps its remainders by 4, 100
      and 400. */
  lemma YearRemaindersPeriodic(y: int, k: int)
    ensures (y + 400 * k) % 4 == y % 4
    ensures (y + 400 * k) % 100 == y % 100
    ensures (y + 400 * k) % 400 == y % 400
  {
    Remainder4Periodic(y, 100 * k);
    Remainder100Periodic(y, 4 * k);
    Remainder400Periodic(y, k);
  }

  lemma Remainder4Periodic(y: int, j: int)
    ensures (y + 4 * j) % 4 == y % 4
  {
    assert y + 4 * j == 4 * (y / 4 + j) + y % 4;
  }

  lemma Remainder100Periodic(y: int, j: int)
    ensures (y + 100 * j) % 100 == y % 100
  {
    assert y + 100 * j == 100 * (y / 100 + j) + y % 100;
  }

  lemma Remainder400Periodic(y: int, j: int)
    ensures (y + 400 * j) % 400 == y % 400
  {
    assert y + 400 * j == 400 * (y / 400 + j) + y % 400;
  }

  /** Leap years repeat every 400 years. */
  lemma LeapYearPeriodic(y: int, k: int)
    ensures IsLeapYear(y + 400 * k) == IsLeapYear(y)
  {
    YearRemaindersPeriodic(y, k);
  }
}
