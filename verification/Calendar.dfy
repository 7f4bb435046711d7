/** The proleptic Gregorian calendar: day numbers, dates, and the date arithmetic of Date.UTC. */
module Calendar {
  /** Months run from 1 to 12. */
  datatype Date = Date(year: int, month: int, day: int)

  predicate IsLeap(year: int) {
    year % 4 == 0 && (year % 100 != 0 || year % 400 == 0)
  }

  function YearDays(year: int): int {
    if IsLeap(year) then 366 else 365
  }

  /** Days of a month, January being 0. */
  function MonthDays(year: int, month: int): int {
    match month
    case 1 => if IsLeap(year) then 29 else 28
    case 3 => 30
    case 5 => 30
    case 8 => 30
    case 10 => 30
    case _ => 31
  }

  predicate IsDate(d: Date) {
    1 <= d.month <= 12 && 1 <= d.day <= MonthDays(d.year, d.month - 1)
  }

  /** Days from the first of January of the year 1 to the one of a year. */
  function DaysBeforeYear(year: int): int {
    365 * (year - 1) + (year - 1) / 4 - (year - 1) / 100 + (year - 1) / 400
  }

  function DaysBeforeMonth(year: int, month: nat): int {
    if month == 0 then 0 else DaysBeforeMonth(year, month - 1) + MonthDays(year, month - 1)
  }

  function DayOf(d: Date): int
    requires 1 <= d.month <= 12
  {
    DaysBeforeYear(d.year) + DaysBeforeMonth(d.year, d.month - 1) + d.day - 1
  }

  // ---- years and months follow each other ----

  lemma NextYear(year: int)
    ensures DaysBeforeYear(year + 1) == DaysBeforeYear(year) + YearDays(year)
  {
    var y := year - 1;
    assert (y + 1) / 4 == y / 4 + if year % 4 == 0 then 1 else 0;
    assert (y + 1) / 100 == y / 100 + if year % 100 == 0 then 1 else 0;
    assert (y + 1) / 400 == y / 400 + if year % 400 == 0 then 1 else 0;
  }

  lemma {:induction false} YearsOrdered(year: int, later: int)
    requires year < later
    ensures DaysBeforeYear(year) + YearDays(year) <= DaysBeforeYear(later)
    decreases later - year
  {
    NextYear(later - 1);
    if year < later - 1 {
      YearsOrdered(year, later - 1);
    }
  }

  lemma {:induction false} MonthsOrdered(year: int, month: nat, later: nat)
    requires month < later
    ensures DaysBeforeMonth(year, month) + MonthDays(year, month) <= DaysBeforeMonth(year, later)
    decreases later
  {
    if month < later - 1 {
      MonthsOrdered(year, month, later - 1);
    }
  }

  lemma YearIsItsMonths(year: int)
    ensures DaysBeforeMonth(year, 12) == YearDays(year)
  {
    var leap := YearDays(year) - 365;
    assert DaysBeforeMonth(year, 1) == 31;
    assert DaysBeforeMonth(year, 2) == 59 + leap;
    assert DaysBeforeMonth(year, 3) == 90 + leap;
    assert DaysBeforeMonth(year, 4) == 120 + leap;
    assert DaysBeforeMonth(year, 5) == 151 + leap;
    assert DaysBeforeMonth(year, 6) == 181 + leap;
    assert DaysBeforeMonth(year, 7) == 212 + leap;
    assert DaysBeforeMonth(year, 8) == 243 + leap;
    assert DaysBeforeMonth(year, 9) == 273 + leap;
    assert DaysBeforeMonth(year, 10) == 304 + leap;
    assert DaysBeforeMonth(year, 11) == 334 + leap;
  }

  lemma DayInYear(d: Date)
    requires IsDate(d)
    ensures DaysBeforeYear(d.year) <= DayOf(d) < DaysBeforeYear(d.year) + YearDays(d.year)
  {
    YearIsItsMonths(d.year);
    BeforeMonthNonNegative(d.year, d.month - 1);
    if d.month < 12 {
      MonthsOrdered(d.year, d.month - 1, 12);
    }
  }

  lemma {:induction false} BeforeMonthNonNegative(year: int, month: nat)
    ensures DaysBeforeMonth(year, month) >= 0
  {
    if month > 0 {
      BeforeMonthNonNegative(year, month - 1);
    }
  }

  /** A later year, month or day is a later day number. */
  lemma DayOrder(a: Date, b: Date)
    requires IsDate(a) && IsDate(b)
    ensures DayOf(a) < DayOf(b) <==>
            a.year < b.year || (a.year == b.year && (a.month < b.month || (a.month == b.month && a.day < b.day)))
    ensures DayOf(a) == DayOf(b) ==> a == b
  {
    DayInYear(a);
    DayInYear(b);
    if a.year < b.year {
      YearsOrdered(a.year, b.year);
    } else if b.year < a.year {
      YearsOrdered(b.year, a.year);
    } else if a.month < b.month {
      MonthsOrdered(a.year, a.month - 1, b.month - 1);
    } else if b.month < a.month {
      MonthsOrdered(a.year, b.month - 1, a.month - 1);
    }
  }

  // ---- from day numbers back to dates ----

  const CYCLE_DAYS := 146_097

  /** The year in which a day of the first cycle of 400 years falls. */
  function YearFrom(day: int, year: int): (y: int)
    requires 1 <= year <= 400 && DaysBeforeYear(year) <= day < CYCLE_DAYS
    ensures year <= y <= 400 && DaysBeforeYear(y) <= day < DaysBeforeYear(y) + YearDays(y)
    decreases 400 - year
  {
    NextYear(year);
    if day < DaysBeforeYear(year + 1) then year else YearFrom(day, year + 1)
  }

  function MonthFrom(year: int, day: int, month: nat): (m: nat)
    requires month < 12 && DaysBeforeMonth(year, month) <= day < YearDays(year)
    ensures month <= m < 12 && DaysBeforeMonth(year, m) <= day < DaysBeforeMonth(year, m) + MonthDays(year, m)
    decreases 12 - month
  {
    YearIsItsMonths(year);
    if day < DaysBeforeMonth(year, month + 1) then month else MonthFrom(year, day, month + 1)
  }

  /** Reckoned by whole cycles, then years, then months. */
  function Reckoned(day: int): (d: Date)
    ensures IsDate(d) && DayOf(d) == day
  {
    var cycle := day / CYCLE_DAYS;
    var inCycle := day % CYCLE_DAYS;
    var base := YearFrom(inCycle, 1);
    CycleYears(base, cycle);
    var year := base + 400 * cycle;
    var inYear := inCycle - DaysBeforeYear(base);
    var month := MonthFrom(year, inYear, 0);
    Date(year, month + 1, inYear - DaysBeforeMonth(year, month) + 1)
  }

  lemma DateExists(day: int)
    ensures exists d :: IsDate(d) && DayOf(d) == day
  {
    assert IsDate(Reckoned(day)) && DayOf(Reckoned(day)) == day;
  }

  /** The one date of a day number. */
  ghost function DateOf(day: int): (d: Date)
    ensures IsDate(d) && DayOf(d) == day
  {
    DateExists(day);
    var d :| IsDate(d) && DayOf(d) == day;
    d
  }

  lemma ShiftBy4(n: int, k: int)
    ensures (n + 4 * k) / 4 == n / 4 + k && (n + 4 * k) % 4 == n % 4
  {
  }

  lemma ShiftBy100(n: int, k: int)
    ensures (n + 100 * k) / 100 == n / 100 + k && (n + 100 * k) % 100 == n % 100
  {
  }

  lemma ShiftBy400(n: int, k: int)
    ensures (n + 400 * k) / 400 == n / 400 + k && (n + 400 * k) % 400 == n % 400
  {
  }

  /** The calendar repeats every 400 years. */
  lemma CycleYears(year: int, cycles: int)
    ensures DaysBeforeYear(year + 400 * cycles) == DaysBeforeYear(year) + CYCLE_DAYS * cycles
    ensures IsLeap(year + 400 * cycles) == IsLeap(year)
  {
    ShiftBy4(year - 1, 100 * cycles);
    ShiftBy100(year - 1, 4 * cycles);
    ShiftBy400(year - 1, cycles);
    ShiftBy4(year, 100 * cycles);
    ShiftBy100(year, 4 * cycles);
    ShiftBy400(year, cycles);
    var later := year + 400 * cycles;
    assert later - 1 == (year - 1) + 400 * cycles;
  }

  /** Every date is the date of its day number. */
  lemma DateOfDayOf(d: Date)
    requires IsDate(d)
    ensures DateOf(DayOf(d)) == d
  {
    DayOrder(d, DateOf(DayOf(d)));
  }

  // ---- Date.UTC ----

  /** Date.UTC takes the years 0 to 99 for 1900 to 1999. */
  function FullYear(year: int): int {
    if 0 <= year <= 99 then 1900 + year else year
  }

  /** The day number of Date.UTC: months and days may lie outside their range. */
  function MakeDay(year: int, month: int, day: int): int {
    DayOf(Date(FullYear(year) + month / 12, month % 12 + 1, 1)) + day - 1
  }

  /** Months of a date from the year 0. */
  function MonthIndex(d: Date): int {
    12 * d.year + d.month - 1
  }

  /** An earlier month is earlier; within a month the day decides. */
  lemma MonthIndexOrder(a: Date, b: Date)
    requires IsDate(a) && IsDate(b)
    ensures MonthIndex(a) < MonthIndex(b) ==> DayOf(a) < DayOf(b)
    ensures MonthIndex(a) == MonthIndex(b) ==>
      a.year == b.year && a.month == b.month && (DayOf(a) <= DayOf(b) <==> a.day <= b.day)
    ensures DayOf(a) <= DayOf(b) ==> MonthIndex(a) <= MonthIndex(b)
  {
    DayOrder(a, b);
    DayOrder(b, a);
  }
}
