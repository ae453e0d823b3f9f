/** Day counting in the proleptic Gregorian calendar. */
module Civil {
  datatype Date = Date(year: int, month: int, day: int)

  predicate IsLeapYear(year: int) {
    year % 4 == 0 && (year % 100 != 0 || year % 400 == 0)
  }

  /** Zero for a month that does not exist, so that no day of it is in range. */
  function DaysInMonth(year: int, month: int): int {
    if month in {1, 3, 5, 7, 8, 10, 12} then 31
    else if month in {4, 6, 9, 11} then 30
    else if month == 2 then (if IsLeapYear(year) then 29 else 28)
    else 0
  }

  predicate ValidDate(d: Date) {
    1 <= d.month <= 12 && 1 <= d.day <= DaysInMonth(d.year, d.month)
  }

  /** Division that truncates toward zero, as the machine's does. */
  function TruncDiv(a: int, b: int): int
    requires b > 0
  {
    if a >= 0 then a / b else -((-a) / b)
  }

  /** Days from 1970-01-01, negative before it. Only the era is computed from a
      number that may be negative. */
  function DaysFromCivil(d: Date): int {
    var year := if d.month <= 2 then d.year - 1 else d.year;
    var era := TruncDiv(if year >= 0 then year else year - 399, 400);
    var yearOfEra := year - era * 400;
    var dayOfYear := (153 * (if d.month > 2 then d.month - 3 else d.month + 9) + 2) / 5 + d.day - 1;
    var dayOfEra := yearOfEra * 365 + yearOfEra / 4 - yearOfEra / 100 + dayOfYear;
    era * 146097 + dayOfEra - 719468
  }

  // ---- the calendar, independently of any day count ------------------------

  function NextDay(d: Date): Date {
    if d.day < DaysInMonth(d.year, d.month) then Date(d.year, d.month, d.day + 1)
    else if d.month < 12 then Date(d.year, d.month + 1, 1)
    else Date(d.year + 1, 1, 1)
  }

  function PreviousDay(d: Date): Date {
    if d.day > 1 then Date(d.year, d.month, d.day - 1)
    else if d.month > 1 then Date(d.year, d.month - 1, DaysInMonth(d.year, d.month - 1))
    else Date(d.year - 1, 12, 31)
  }

  /** Lexicographic order of year, month and day. */
  predicate Earlier(a: Date, b: Date) {
    a.year < b.year || (a.year == b.year && (a.month < b.month || (a.month == b.month && a.day < b.day)))
  }

  // ---- the day count -------------------------------------------------------

  /** The truncating division with its shifted numerator is the floor, and the
      days before a year that starts in March are four divisions of it. */
  lemma EraIsFloor(year: int)
    ensures TruncDiv(if year >= 0 then year else year - 399, 400) == year / 400
    ensures 0 <= year - year / 400 * 400 <= 399
  {
  }

  function DaysBeforeMarch(year: int): int {
    365 * year + year / 4 - year / 100 + year / 400 - 719468
  }

  /** The year, starting in March, that a date belongs to. */
  function MarchYear(d: Date): int {
    if d.month <= 2 then d.year - 1 else d.year
  }

  function DayOfMarchYear(month: int, day: int): int {
    (153 * (if month > 2 then month - 3 else month + 9) + 2) / 5 + day - 1
  }

  lemma ClosedForm(d: Date)
    ensures DaysFromCivil(d) == DaysBeforeMarch(MarchYear(d)) + DayOfMarchYear(d.month, d.day)
  {
    var year := MarchYear(d);
    EraIsFloor(year);
    var era, yoe := year / 400, year % 400;
    assert year == 400 * era + yoe;
    assert year / 4 == 100 * era + yoe / 4;
    assert year / 100 == 4 * era + yoe / 100;
  }

  /** A year that starts in March ends with the February of the year after. */
  lemma MarchToMarch(year: int)
    ensures DaysBeforeMarch(year + 1) == DaysBeforeMarch(year) + 337 + DaysInMonth(year + 1, 2)
  {
    assert (year + 1) / 4 - year / 4 == if (year + 1) % 4 == 0 then 1 else 0;
    assert (year + 1) / 100 - year / 100 == if (year + 1) % 100 == 0 then 1 else 0;
    assert (year + 1) / 400 - year / 400 == if (year + 1) % 400 == 0 then 1 else 0;
  }

  /** Within a March year the month table is the straight line of the code. */
  lemma MonthToMonth(year: int, month: int)
    requires 1 <= month <= 12 && month != 2
    ensures DayOfMarchYear(if month < 12 then month + 1 else 1, 1)
            == DayOfMarchYear(month, DaysInMonth(year, month)) + 1
  {
  }

  lemma EpochIsZero()
    ensures DaysFromCivil(Date(1970, 1, 1)) == 0
  {
  }

  lemma NextDayIsValid(d: Date)
    requires ValidDate(d)
    ensures ValidDate(NextDay(d)) && Earlier(d, NextDay(d))
    ensures PreviousDay(NextDay(d)) == d
  {
  }

  /** Every day is followed by the next number: within months, over month ends,
      29 February, centuries, four centuries and year zero alike. */
  lemma NextDayIsNext(d: Date)
    requires ValidDate(d)
    ensures DaysFromCivil(NextDay(d)) == DaysFromCivil(d) + 1
  {
    var next := NextDay(d);
    assert DaysBeforeMarch(MarchYear(next)) + DayOfMarchYear(next.month, next.day)
        == DaysBeforeMarch(MarchYear(d)) + DayOfMarchYear(d.month, d.day) + 1 by {
      if d.day == DaysInMonth(d.year, d.month) {
        if d.month == 2 { MarchToMarch(d.year - 1); } else { MonthToMonth(d.year, d.month); }
      }
    }
    ClosedForm(d);
    ClosedForm(next);
  }

  lemma PreviousDayIsPrevious(d: Date)
    requires ValidDate(d)
    ensures ValidDate(PreviousDay(d)) && NextDay(PreviousDay(d)) == d
  {
  }

  /** Order of dates is order of day numbers: strictly monotone, hence injective. */
  lemma {:induction false} OrderPreserved(a: Date, b: Date)
    requires ValidDate(a) && ValidDate(b)
    ensures Earlier(a, b) <==> DaysFromCivil(a) < DaysFromCivil(b)
    ensures a == b <==> DaysFromCivil(a) == DaysFromCivil(b)
  {
    if Earlier(a, b) {
      Increasing(a, b);
    } else if Earlier(b, a) {
      Increasing(b, a);
    }
  }

  lemma {:induction false} Increasing(a: Date, b: Date)
    requires ValidDate(a) && ValidDate(b) && Earlier(a, b)
    ensures DaysFromCivil(a) < DaysFromCivil(b)
    decreases (b.year - a.year) * 372 + (b.month - a.month) * 31 + b.day - a.day
  {
    NextDayIsValid(a);
    NextDayIsNext(a);
    if NextDay(a) != b {
      Increasing(NextDay(a), b);
    }
  }

  /** The calendar date of a day number, by counting days from the epoch. */
  function CivilFromDays(n: int): (d: Date)
    ensures ValidDate(d)
    decreases if n < 0 then -n else n
  {
    if n == 0 then Date(1970, 1, 1)
    else if n > 0 then
      var before := CivilFromDays(n - 1);
      NextDayIsValid(before);
      NextDay(before)
    else
      var after := CivilFromDays(n + 1);
      PreviousDayIsPrevious(after);
      PreviousDay(after)
  }

  lemma {:induction false} CountingUp(n: nat)
    ensures DaysFromCivil(CivilFromDays(n)) == n
  {
    if n > 0 {
      CountingUp(n - 1);
      NextDayIsNext(CivilFromDays(n - 1));
    } else {
      EpochIsZero();
    }
  }

  lemma {:induction false} CountingDown(n: int)
    requires n <= 0
    ensures DaysFromCivil(CivilFromDays(n)) == n
    decreases -n
  {
    if n < 0 {
      CountingDown(n + 1);
      var after := CivilFromDays(n + 1);
      PreviousDayIsPrevious(after);
      NextDayIsNext(PreviousDay(after));
    } else {
      EpochIsZero();
    }
  }

  /** `DaysFromCivil` is a bijection between valid dates and all integers, and
      counting day by day from the epoch is its inverse. */
  lemma {:induction false} CountingDays(n: int)
    ensures DaysFromCivil(CivilFromDays(n)) == n
  {
    if n >= 0 { CountingUp(n); } else { CountingDown(n); }
  }

  lemma {:induction false} CountingDaysInverse(d: Date)
    requires ValidDate(d)
    ensures CivilFromDays(DaysFromCivil(d)) == d
  {
    CountingDays(DaysFromCivil(d));
    OrderPreserved(CivilFromDays(DaysFromCivil(d)), d);
  }

  lemma FourCenturies(d: Date)
    ensures DaysFromCivil(Date(d.year + 400, d.month, d.day)) == DaysFromCivil(d) + 146097
  {
    ClosedForm(d);
    ClosedForm(Date(d.year + 400, d.month, d.day));
    EraLength(MarchYear(d));
  }

  lemma EraLength(year: int)
    ensures DaysBeforeMarch(year + 400) == DaysBeforeMarch(year) + 146097
  {
    assert (year + 400) / 4 == year / 4 + 100;
    assert (year + 400) / 100 == year / 100 + 4;
    assert (year + 400) / 400 == year / 400 + 1;
  }
}
