/** The proleptic Gregorian calendar the timestamps count in: days since 1970-01-01, and back. The source
    takes both directions from std::chrono; what they mean is stated here. */
module Calendar {

  datatype Date = Date(year: int, month: int, day: int)

  predicate IsLeap(year: int) {
    year % 4 == 0 && (year % 100 != 0 || year % 400 == 0)
  }

  function DaysInMonth(year: int, month: int): int {
    if month == 2 then (if IsLeap(year) then 29 else 28)
    else if month == 4 || month == 6 || month == 9 || month == 11 then 30
    else 31
  }

  predicate IsValidDate(d: Date) {
    1 <= d.month <= 12 && 1 <= d.day <= DaysInMonth(d.year, d.month)
  }

  function LeapDaysBefore(year: int): int {
    (year - 1) / 4 - (year - 1) / 100 + (year - 1) / 400
  }

  /** The day number of January 1. */
  function YearStart(year: int): int {
    365 * (year - 1970) + LeapDaysBefore(year) - 477
  }

  /** The days of the year before the month. */
  function MonthStart(year: int, month: int): int {
    var common :=
      if month <= 1 then 0 else if month == 2 then 31 else if month == 3 then 59 else if month == 4 then 90
      else if month == 5 then 120 else if month == 6 then 151 else if month == 7 then 181 else if month == 8 then 212
      else if month == 9 then 243 else if month == 10 then 273 else if month == 11 then 304 else 334;
    if month > 2 && IsLeap(year) then common + 1 else common
  }

  function DaysOf(d: Date): int {
    YearStart(d.year) + MonthStart(d.year, d.month) + d.day - 1
  }

  function NextDay(d: Date): Date {
    if d.day < DaysInMonth(d.year, d.month) then d.(day := d.day + 1)
    else if d.month < 12 then Date(d.year, d.month + 1, 1)
    else Date(d.year + 1, 1, 1)
  }

  lemma YearLength(year: int)
    ensures YearStart(year + 1) == YearStart(year) + if IsLeap(year) then 366 else 365
  {
    LeapStep(year, 4);
    LeapStep(year, 100);
    LeapStep(year, 400);
    LeapNesting(year);
  }

  lemma LeapStep(year: int, n: int)
    requires n == 4 || n == 100 || n == 400
    ensures year / n == (year - 1) / n + if year % n == 0 then 1 else 0
  {
  }

  lemma LeapNesting(year: int)
    ensures year % 400 == 0 ==> year % 100 == 0
    ensures year % 100 == 0 ==> year % 4 == 0
  {
  }

  lemma MonthLength(year: int, month: int)
    requires 1 <= month <= 12
    ensures month < 12 ==> MonthStart(year, month + 1) == MonthStart(year, month) + DaysInMonth(year, month)
    ensures month == 12 ==> YearStart(year + 1) == YearStart(year) + MonthStart(year, 12) + DaysInMonth(year, 12)
  {
    YearLength(year);
  }

  /** The numbering counts days: 0 is 1970-01-01 and every next day is one more. */
  lemma CountsDays(d: Date)
    requires IsValidDate(d)
    ensures DaysOf(Date(1970, 1, 1)) == 0
    ensures IsValidDate(NextDay(d)) && DaysOf(NextDay(d)) == DaysOf(d) + 1
  {
    hide IsLeap, LeapDaysBefore;
    MonthLength(d.year, d.month);
    assert LeapDaysBefore(1970) == 477 by {
      LeapDaysAtEpoch();
    }
  }

  lemma LeapDaysAtEpoch()
    ensures LeapDaysBefore(1970) == 477
  {
  }

  // Back to a date: the year that contains the day, then the month.

  function YearOf(days: int, guess: int): (year: int)
    ensures YearStart(year) <= days < YearStart(year + 1)
    decreases days < YearStart(guess), if days < YearStart(guess) then YearStart(guess) - days else days - YearStart(guess)
  {
    YearLength(guess);
    YearLength(guess - 1);
    if days < YearStart(guess) then YearOf(days, guess - 1)
    else if days >= YearStart(guess + 1) then YearOf(days, guess + 1)
    else guess
  }

  function MonthOf(year: int, dayOfYear: int, guess: int): (month: int)
    requires 1 <= guess <= 12 && 0 <= dayOfYear
    requires guess < 12 ==> dayOfYear < MonthStart(year, guess + 1)
    ensures 1 <= month <= 12 && MonthStart(year, month) <= dayOfYear
    ensures month < 12 ==> dayOfYear < MonthStart(year, month + 1)
    decreases guess
  {
    if guess == 1 || MonthStart(year, guess) <= dayOfYear then guess else MonthOf(year, dayOfYear, guess - 1)
  }

  function DateOf(days: int): Date {
    var year := YearOf(days, 1970);
    var dayOfYear := days - YearStart(year);
    var month := MonthOf(year, dayOfYear, 12);
    Date(year, month, dayOfYear - MonthStart(year, month) + 1)
  }

  lemma {:induction false} YearsGrow(a: int, b: int)
    ensures a < b ==> YearStart(a + 1) <= YearStart(b)
    decreases b - a
  {
    if a + 1 < b {
      YearsGrow(a, b - 1);
      YearLength(b - 1);
    }
  }

  lemma {:induction false} MonthsGrow(year: int, a: int, b: int)
    requires 1 <= a && b <= 12
    ensures a < b ==> MonthStart(year, a + 1) <= MonthStart(year, b)
    decreases b - a
  {
    if a + 1 < b {
      MonthsGrow(year, a, b - 1);
      MonthLength(year, b - 1);
    }
  }

  lemma DateOfIsValid(days: int)
    ensures IsValidDate(DateOf(days)) && DaysOf(DateOf(days)) == days
  {
    var d := DateOf(days);
    MonthLength(d.year, d.month);
  }

  /** Each valid date is the one date of its day number. */
  lemma DateOfDays(d: Date)
    requires IsValidDate(d)
    ensures DateOf(DaysOf(d)) == d
  {
    hide YearStart, MonthStart, DaysInMonth, YearOf, MonthOf;
    var e := DateOf(DaysOf(d));
    DateOfIsValid(DaysOf(d));
    InYear(d);
    YearsGrow(d.year, e.year);
    YearsGrow(e.year, d.year);
    MonthLength(d.year, d.month);
    MonthLength(e.year, e.month);
    MonthsGrow(d.year, d.month, e.month);
    MonthsGrow(d.year, e.month, d.month);
  }

  lemma InYear(d: Date)
    requires IsValidDate(d)
    ensures YearStart(d.year) <= DaysOf(d) < YearStart(d.year + 1)
  {
    hide YearStart;
    YearLength(d.year);
  }
}
