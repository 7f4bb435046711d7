/** Billing periods: adding months with the day cut to the last day of the month it lands in. */
module BillingPeriod {
  import opened Calendar
  import opened Results

  /** A moment: the day number and the milliseconds of that day, in UTC. */
  datatype Instant = Instant(day: int, time: int)

  const DAY_MS := 86_400_000

  predicate IsInstant(i: Instant) {
    0 <= i.time < DAY_MS
  }

  function GetTime(i: Instant): int {
    DAY_MS * i.day + i.time
  }

  /** From one midnight to the next there are 24 hours. */
  lemma DayLength(day: int)
    ensures GetTime(Instant(day + 1, 0)) - GetTime(Instant(day, 0)) == 24 * 60 * 60 * 1000
  {
  }

  /** Remainder of the language: it has the sign of the dividend. */
  function Remainder(n: int, d: nat): int
    requires d > 0
  {
    if n >= 0 then n % d else -((-n) % d)
  }

  ghost function LastDayOfUtcMonth(year: int, monthIndex: int): int {
    DateOf(MakeDay(year, monthIndex + 1, 0)).day
  }

  function Min(a: int, b: int): int {
    if a < b then a else b
  }

  function TargetYear(d: Date, months: int): int {
    d.year + (d.month - 1 + months) / 12
  }

  function TargetMonth(d: Date, months: int): int {
    Remainder(Remainder(d.month - 1 + months, 12) + 12, 12)
  }

  ghost function ShiftedDay(d: Date, months: int): int {
    var year, month := TargetYear(d, months), TargetMonth(d, months);
    MakeDay(year, month, Min(d.day, LastDayOfUtcMonth(year, month)))
  }

  /** The same time of the day in another month; an invalid reference is an error. */
  ghost function AddMonthsUtc(reference: Option<Instant>, months: int): Result<Instant> {
    if reference.None? then Err("RangeError")
    else Ok(Instant(ShiftedDay(DateOf(reference.value.day), months), reference.value.time))
  }

  ghost function ComputePeriodEnd(startedAt: Option<Instant>, months: int): Result<Instant> {
    var end := AddMonthsUtc(startedAt, months);
    if end.Ok? && GetTime(end.value) <= GetTime(startedAt.value) then Err("RangeError") else end
  }

  // ---- where a month lands ----

  lemma TargetMonthIsModulo(d: Date, months: int)
    ensures TargetMonth(d, months) == (d.month - 1 + months) % 12
  {
  }

  /** The day zero of the next month is the last of this one. */
  lemma LastDay(year: int, monthIndex: int)
    ensures LastDayOfUtcMonth(year, monthIndex) == MonthDays(FullYear(year) + monthIndex / 12, monthIndex % 12)
  {
    var y, m := FullYear(year) + monthIndex / 12, monthIndex % 12;
    var last := Date(y, m + 1, MonthDays(y, m));
    if m < 11 {
      assert (monthIndex + 1) / 12 == monthIndex / 12 && (monthIndex + 1) % 12 == m + 1;
      assert DaysBeforeMonth(y, m + 1) == DaysBeforeMonth(y, m) + MonthDays(y, m);
    } else {
      assert (monthIndex + 1) / 12 == monthIndex / 12 + 1 && (monthIndex + 1) % 12 == 0;
      YearIsItsMonths(y);
      NextYear(y);
    }
    assert MakeDay(year, monthIndex + 1, 0) == DayOf(last);
    DateOfDayOf(last);
  }

  /** The date a shift lands on. */
  function Landing(d: Date, months: int): Date {
    var year, month := FullYear(TargetYear(d, months)), (d.month - 1 + months) % 12;
    Date(year, month + 1, Min(d.day, MonthDays(year, month)))
  }

  lemma InRange(month: nat)
    requires month < 12
    ensures month / 12 == 0 && month % 12 == month
  {
  }

  lemma LastDayInRange(year: int, month: nat)
    requires month < 12
    ensures LastDayOfUtcMonth(year, month) == MonthDays(FullYear(year), month)
  {
    InRange(month);
    LastDay(year, month);
  }

  lemma LandsNamed(year: int, month: nat, day: int, landed: Date)
    requires month < 12 && landed == Date(FullYear(year), month + 1, day) && IsDate(landed)
    ensures DateOf(MakeDay(year, month, day)) == landed
  {
    InRange(month);
    DateOfDayOf(landed);
  }

  lemma LandsOnDay(d: Date, year: int, month: nat)
    requires IsDate(d) && month < 12
    ensures DateOf(MakeDay(year, month, Min(d.day, LastDayOfUtcMonth(year, month)))) ==
            Date(FullYear(year), month + 1, Min(d.day, MonthDays(FullYear(year), month)))
  {
    LastDayInRange(year, month);
    LandsNamed(year, month, Min(d.day, MonthDays(FullYear(year), month)),
      Date(FullYear(year), month + 1, Min(d.day, MonthDays(FullYear(year), month))));
  }

  lemma ShiftedDayLands(d: Date, months: int)
    requires IsDate(d)
    ensures IsDate(Landing(d, months))
    ensures DateOf(ShiftedDay(d, months)) == Landing(d, months)
  {
    TargetMonthIsModulo(d, months);
    LandsOnDay(d, TargetYear(d, months), TargetMonth(d, months));
  }

  /** The target year is not one that Date.UTC reads as a year of the twentieth century. */
  predicate PlainYear(d: Date, months: int) {
    !(0 <= TargetYear(d, months) <= 99)
  }

  ghost function DateOfInstant(i: Instant): Date {
    DateOf(i.day)
  }

  /**
   * The result is in the month that lies `months` after the reference exactly when the target year is not
   * between 0 and 99; its day is the reference's, cut to the last of the month, at the same time of day.
   */
  lemma LandsInMonth(reference: Instant, months: int)
    ensures AddMonthsUtc(Some(reference), months).Ok?
    ensures var d := DateOfInstant(reference);
            var result := AddMonthsUtc(Some(reference), months).value;
            var landed := DateOfInstant(result);
            && (MonthIndex(landed) == MonthIndex(d) + months <==> PlainYear(d, months))
            && landed.day == Min(d.day, MonthDays(landed.year, landed.month - 1))
            && result.time == reference.time
  {
    var d := DateOfInstant(reference);
    ShiftedDayLands(d, months);
    var n := d.month - 1 + months;
    assert n == 12 * (n / 12) + n % 12;
  }

  /** December of the year 98 plus a month is read as January 1999. */
  lemma EarlyYearMisses()
    ensures var reference := Instant(DayOf(Date(98, 12, 15)), 0);
            DateOfInstant(AddMonthsUtc(Some(reference), 1).value) == Date(1999, 1, 15)
  {
    var d := Date(98, 12, 15);
    DateOfDayOf(d);
    ShiftedDayLands(d, 1);
    assert Landing(d, 1) == Date(1999, 1, 15);
  }

  /** One date is the other moved by a number of months, its day cut if need be. */
  ghost predicate Moved(d: Date, landed: Date, months: int) {
    && IsDate(d) && IsDate(landed)
    && MonthIndex(landed) == MonthIndex(d) + months
    && landed.day == Min(d.day, MonthDays(landed.year, landed.month - 1))
  }

  lemma MovedNonDecreasing(a: Date, b: Date, p: Date, q: Date, months: int)
    requires Moved(a, p, months) && Moved(b, q, months) && DayOf(a) <= DayOf(b)
    ensures DayOf(p) <= DayOf(q)
  {
    MonthIndexOrder(a, b);
    MonthIndexOrder(p, q);
  }

  lemma MovedBack(d: Date, there: Date, back: Date, months: int)
    requires Moved(d, there, months) && Moved(there, back, -months)
    ensures back == d <==> d.day <= MonthDays(there.year, there.month - 1)
  {
    MonthIndexOrder(d, back);
  }

  ghost predicate InstantMoved(a: Instant, b: Instant, months: int) {
    Moved(DateOfInstant(a), DateOfInstant(b), months) && a.time == b.time
  }

  lemma AddedMonthsMove(reference: Instant, months: int, result: Instant)
    requires PlainYear(DateOfInstant(reference), months)
    requires AddMonthsUtc(Some(reference), months) == Ok(result)
    ensures InstantMoved(reference, result, months)
  {
    LandsInMonth(reference, months);
  }

  lemma InstantMovedBack(a: Instant, b: Instant, c: Instant, months: int)
    requires InstantMoved(a, b, months) && InstantMoved(b, c, -months)
    ensures c == a <==> DateOfInstant(a).day <= MonthDays(DateOfInstant(b).year, DateOfInstant(b).month - 1)
  {
    MovedBack(DateOfInstant(a), DateOfInstant(b), DateOfInstant(c), months);
  }

  /** A later reference day never lands on an earlier day. */
  lemma DayNonDecreasing(a: Instant, b: Instant, months: int)
    requires a.day <= b.day
    requires PlainYear(DateOfInstant(a), months) && PlainYear(DateOfInstant(b), months)
    ensures AddMonthsUtc(Some(a), months).value.day <= AddMonthsUtc(Some(b), months).value.day
  {
    var p, q := AddMonthsUtc(Some(a), months).value, AddMonthsUtc(Some(b), months).value;
    AddedMonthsMove(a, months, p);
    AddedMonthsMove(b, months, q);
    MovedNonDecreasing(DateOfInstant(a), DateOfInstant(b), DateOfInstant(p), DateOfInstant(q), months);
  }

  /** Instants are another matter: the day may be cut and the time of day then decides. */
  lemma InstantsMayCross()
    ensures var a := Instant(DayOf(Date(2025, 1, 30)), 23 * 3_600_000);
            var b := Instant(DayOf(Date(2025, 1, 31)), 1 * 3_600_000);
            && GetTime(a) < GetTime(b)
            && GetTime(AddMonthsUtc(Some(a), 1).value) > GetTime(AddMonthsUtc(Some(b), 1).value)
  {
    var d, e := Date(2025, 1, 30), Date(2025, 1, 31);
    DateOfDayOf(d);
    DateOfDayOf(e);
    ShiftedDayLands(d, 1);
    ShiftedDayLands(e, 1);
    assert Landing(d, 1) == Landing(e, 1) == Date(2025, 2, 28);
  }

  /** Dates in order land on the same day exactly if they are the same or both are cut to one month's end. */
  lemma MovedTogether(d: Date, e: Date, p: Date, q: Date, months: int)
    requires Moved(d, p, months) && Moved(e, q, months) && DayOf(d) <= DayOf(e)
    ensures p == q <==> d == e || (d.year == e.year && d.month == e.month && d.day >= MonthDays(p.year, p.month - 1))
  {
    MonthIndexOrder(d, e);
    CutTogether(d, e, p, q, months);
  }

  lemma CutTogether(d: Date, e: Date, p: Date, q: Date, months: int)
    requires Moved(d, p, months) && Moved(e, q, months) && MonthIndex(d) <= MonthIndex(e)
    requires MonthIndex(d) == MonthIndex(e) ==> d.year == e.year && d.month == e.month && d.day <= e.day
    ensures p == q <==> d == e || (d.year == e.year && d.month == e.month && d.day >= MonthDays(p.year, p.month - 1))
  {
    if MonthIndex(d) == MonthIndex(e) {
      assert p.year == q.year && p.month == q.month;
    }
  }

  lemma SameDay(i: Instant, j: Instant)
    ensures DateOfInstant(i) == DateOfInstant(j) <==> i.day == j.day
  {
    assert DayOf(DateOf(i.day)) == i.day && DayOf(DateOf(j.day)) == j.day;
  }

  lemma InstantOrder(i: Instant, j: Instant)
    requires IsInstant(i) && IsInstant(j)
    ensures GetTime(i) < GetTime(j) <==> i.day < j.day || (i.day == j.day && i.time < j.time)
  {
  }

  lemma CrossingDays(a: Instant, b: Instant, p: Instant, q: Instant, months: int)
    requires InstantMoved(a, p, months) && InstantMoved(b, q, months) && a.day <= b.day
    ensures var (d, e, landed) := (DateOfInstant(a), DateOfInstant(b), DateOfInstant(p));
            p.day == q.day && a.day < b.day <==>
              && d.year == e.year && d.month == e.month && d.day < e.day
              && d.day >= MonthDays(landed.year, landed.month - 1)
  {
    var (d, e) := (DateOfInstant(a), DateOfInstant(b));
    SameDay(a, b);
    SameDay(p, q);
    MovedTogether(d, e, DateOfInstant(p), DateOfInstant(q), months);
    DayOrder(d, e);
  }

  lemma MovedCross(a: Instant, b: Instant, p: Instant, q: Instant, months: int)
    requires IsInstant(a) && IsInstant(b) && GetTime(a) < GetTime(b)
    requires InstantMoved(a, p, months) && InstantMoved(b, q, months)
    ensures var (d, e, landed) := (DateOfInstant(a), DateOfInstant(b), DateOfInstant(p));
            GetTime(p) > GetTime(q) <==>
              && d.year == e.year && d.month == e.month && d.day < e.day && a.time > b.time
              && d.day >= MonthDays(landed.year, landed.month - 1)
  {
    InstantOrder(a, b);
    InstantOrder(q, p);
    CrossingDays(a, b, p, q, months);
    MovedNonDecreasing(DateOfInstant(a), DateOfInstant(b), DateOfInstant(p), DateOfInstant(q), months);
  }

  /**
   * Two instants in order come out in the opposite order exactly if both are in one month, on different days
   * of it that are cut to the same one, and the later has the earlier time of day.
   */
  lemma InstantsCrossExactly(a: Instant, b: Instant, months: int, p: Instant, q: Instant)
    requires IsInstant(a) && IsInstant(b) && GetTime(a) < GetTime(b)
    requires PlainYear(DateOfInstant(a), months) && PlainYear(DateOfInstant(b), months)
    requires AddMonthsUtc(Some(a), months) == Ok(p) && AddMonthsUtc(Some(b), months) == Ok(q)
    ensures var (d, e) := (DateOfInstant(a), DateOfInstant(b));
            GetTime(p) > GetTime(q) <==>
              && d.year == e.year && d.month == e.month && d.day < e.day && a.time > b.time
              && d.day >= LastDayOfUtcMonth(TargetYear(d, months), TargetMonth(d, months))
  {
    AddedMonthsMove(a, months, p);
    AddedMonthsMove(b, months, q);
    CutOffMonth(a, months, p);
    MovedCross(a, b, p, q, months);
  }

  /** More months end strictly later. */
  lemma IncreasingInMonths(reference: Instant, months: int, more: int)
    requires IsInstant(reference) && months < more
    requires PlainYear(DateOfInstant(reference), months) && PlainYear(DateOfInstant(reference), more)
    ensures GetTime(AddMonthsUtc(Some(reference), months).value) < GetTime(AddMonthsUtc(Some(reference), more).value)
  {
    var p, q := AddMonthsUtc(Some(reference), months).value, AddMonthsUtc(Some(reference), more).value;
    LandsInMonth(reference, months);
    LandsInMonth(reference, more);
    MonthIndexOrder(DateOfInstant(p), DateOfInstant(q));
  }

  /** Going back the same number of months returns to the reference exactly when the day was not cut. */
  lemma ThereAndBack(reference: Instant, months: int, there: Instant, back: Instant)
    requires PlainYear(DateOfInstant(reference), months) && !(0 <= DateOfInstant(reference).year <= 99)
    requires AddMonthsUtc(Some(reference), months) == Ok(there)
    requires AddMonthsUtc(Some(there), -months) == Ok(back)
    ensures var d := DateOfInstant(reference);
            back == reference <==> d.day <= LastDayOfUtcMonth(TargetYear(d, months), TargetMonth(d, months))
  {
    AddedMonthsMove(reference, months, there);
    BackIsPlain(reference, there, months);
    AddedMonthsMove(there, -months, back);
    InstantMovedBack(reference, there, back, months);
    CutOffMonth(reference, months, there);
  }

  lemma BackIsPlain(reference: Instant, there: Instant, months: int)
    requires InstantMoved(reference, there, months) && !(0 <= DateOfInstant(reference).year <= 99)
    ensures PlainYear(DateOfInstant(there), -months)
  {
    BackToYear(DateOfInstant(reference), DateOfInstant(there), months);
  }

  lemma CutOffMonth(reference: Instant, months: int, there: Instant)
    requires PlainYear(DateOfInstant(reference), months)
    requires AddMonthsUtc(Some(reference), months) == Ok(there)
    ensures var d := DateOfInstant(reference);
            var landed := DateOfInstant(there);
            LastDayOfUtcMonth(TargetYear(d, months), TargetMonth(d, months)) == MonthDays(landed.year, landed.month - 1)
  {
    var d := DateOfInstant(reference);
    TargetMonthIsModulo(d, months);
    LastDayInRange(TargetYear(d, months), TargetMonth(d, months));
    ShiftedDayLands(d, months);
  }

  lemma BackToYear(d: Date, there: Date, months: int)
    requires IsDate(d) && IsDate(there) && MonthIndex(there) == MonthIndex(d) + months
    ensures TargetYear(there, -months) == d.year
  {
    assert there.month - 1 - months == 12 * (d.year - there.year) + (d.month - 1);
  }

  /** A period of one month or more always has an end, after its start; one of none or fewer has none. */
  lemma PeriodHasEnd(startedAt: Instant, months: int)
    requires IsInstant(startedAt)
    ensures months >= 1 ==>
      ComputePeriodEnd(Some(startedAt), months).Ok? &&
      GetTime(ComputePeriodEnd(Some(startedAt), months).value) > GetTime(startedAt)
    ensures months <= 0 && PlainYear(DateOfInstant(startedAt), months) ==>
      ComputePeriodEnd(Some(startedAt), months).Err?
  {
    var d := DateOfInstant(startedAt);
    var result := AddMonthsUtc(Some(startedAt), months).value;
    var landed := DateOfInstant(result);
    LandsInMonth(startedAt, months);
    ShiftedDayLands(d, months);
    MonthIndexOrder(d, landed);
    MonthIndexOrder(landed, d);
    if months >= 1 {
      assert TargetYear(d, months) >= d.year;
      DayOrder(d, landed);
    }
  }
}
