/** Calendar dates as texts: adding days, and telling which is earlier by comparing the texts. */
module BusinessDate {
  import opened Calendar
  import opened Decimals

  /** A date whose text has four digits of year. */
  predicate Printable(d: Date) {
    IsDate(d) && 0 <= d.year <= 9999
  }

  /** YYYY-MM-DD */
  function IsoText(d: Date): string
    requires Printable(d)
  {
    PadStart(Digits(d.year), 4) + "-" + PadStart(Digits(d.month), 2) + "-" + PadStart(Digits(d.day), 2)
  }

  /** The first ten characters of toISOString; other years print six digits after a sign. */
  function IsoPrefix(d: Date): string
    requires IsDate(d)
  {
    if Printable(d) then IsoText(d)
    else
      var sign := if d.year < 0 then "-" else "+";
      var year: nat := if d.year < 0 then -d.year else d.year;
      var text := sign + PadStart(Digits(year), 6) + "-" + PadStart(Digits(d.month), 2) + "-" +
        PadStart(Digits(d.day), 2);
      if |text| <= 10 then text else text[..10]
  }

  /** The shape YYYY-MM-DD, whatever the digits say. */
  predicate IsoShape(text: string) {
    && |text| == 10 && text[4] == '-' && text[7] == '-'
    && AllDigits(text[..4]) && AllDigits(text[5..7]) && AllDigits(text[8..])
  }

  function ShiftedDay(date: string, days: int): int
    requires IsoShape(date)
  {
    MakeDay(Value(date[..4]), Value(date[5..7]) - 1, Value(date[8..]) + days)
  }

  /** Day arithmetic on the calendar, with no time zone. */
  ghost function AddDays(date: string, days: int): string
    requires IsoShape(date)
  {
    IsoPrefix(DateOf(ShiftedDay(date, days)))
  }

  predicate IsPastDue(dueDate: string, today: string) {
    TextLess(dueDate, today)
  }

  // ---- texts of dates ----

  lemma Padded(n: nat, width: nat)
    requires width > 0 && n < Pow10(width)
    ensures AllDigits(PadStart(Digits(n), width)) && |PadStart(Digits(n), width)| == width
    ensures Value(PadStart(Digits(n), width)) == n
  {
    ValueOfDigits(n);
    DigitsLength(n, width);
    PadStartValue(Digits(n), width);
  }

  /** The text is the one of the date. */
  predicate Writes(text: string, d: Date) {
    && IsoShape(text)
    && Value(text[..4]) == d.year && Value(text[5..7]) == d.month && Value(text[8..]) == d.day
  }

  lemma IsoWrites(d: Date)
    requires Printable(d)
    ensures Writes(IsoText(d), d)
  {
    assert Pow10(2) == 100 && Pow10(4) == 10_000;
    Padded(d.year, 4);
    Padded(d.month, 2);
    Padded(d.day, 2);
    var text := IsoText(d);
    assert text[..4] == PadStart(Digits(d.year), 4);
    assert text[5..7] == PadStart(Digits(d.month), 2);
    assert text[8..] == PadStart(Digits(d.day), 2);
  }

  lemma IsoYear(d: Date)
    requires Printable(d)
    ensures |IsoText(d)| == 10 && IsoText(d)[..4] == PadStart(Digits(d.year), 4)
  {
    assert Pow10(2) == 100 && Pow10(4) == 10_000;
    Padded(d.year, 4);
    Padded(d.month, 2);
    Padded(d.day, 2);
  }

  /** Of two texts that begin with different parts of one length, the parts decide. */
  lemma {:induction false} PartsDecide(a: string, b: string, x: string, y: string)
    requires |a| == |b| && a != b
    ensures TextLess(a + x, b + y) <==> TextLess(a, b)
    decreases |a|
  {
    assert a == [a[0]] + a[1..] && b == [b[0]] + b[1..];
    assert (a + x)[1..] == a[1..] + x && (b + y)[1..] == b[1..] + y;
    if a[0] == b[0] {
      PartsDecide(a[1..], b[1..], x, y);
    }
  }

  /** One part and what follows it: a smaller part wins, equal parts leave it to the rest. */
  lemma PartThenRest(m: nat, n: nat, width: nat, x: string, y: string)
    requires width > 0 && m < Pow10(width) && n < Pow10(width)
    ensures TextLess(PadStart(Digits(m), width) + x, PadStart(Digits(n), width) + y) <==>
            m < n || (m == n && TextLess(x, y))
  {
    var a, b := PadStart(Digits(m), width), PadStart(Digits(n), width);
    Padded(m, width);
    Padded(n, width);
    TextOrder(a, b);
    if m == n {
      TextLessPrefix(a, x, y);
    } else {
      PartsDecide(a, b, x, y);
    }
  }

  function MonthDay(d: Date): string
    requires Printable(d)
  {
    PadStart(Digits(d.month), 2) + ("-" + PadStart(Digits(d.day), 2))
  }

  lemma IsoTextParts(d: Date)
    requires Printable(d)
    ensures IsoText(d) == PadStart(Digits(d.year), 4) + ("-" + MonthDay(d))
  {
  }

  lemma MonthAndDay(due: Date, today: Date)
    requires Printable(due) && Printable(today)
    ensures TextLess(MonthDay(due), MonthDay(today)) <==>
            due.month < today.month || (due.month == today.month && due.day < today.day)
  {
    var dd, td := PadStart(Digits(due.day), 2), PadStart(Digits(today.day), 2);
    assert Pow10(2) == 100;
    PartThenRest(due.month, today.month, 2, "-" + dd, "-" + td);
    TextLessPrefix("-", dd, td);
    PartThenRest(due.day, today.day, 2, "", "");
    assert dd + "" == dd && td + "" == td;
  }

  /** For years of four digits text order is calendar order. */
  lemma PastDueIsEarlier(due: Date, today: Date)
    requires Printable(due) && Printable(today)
    ensures IsPastDue(IsoText(due), IsoText(today)) <==> DayOf(due) < DayOf(today)
  {
    assert Pow10(4) == 10_000;
    IsoTextParts(due);
    IsoTextParts(today);
    PartThenRest(due.year, today.year, 4, "-" + MonthDay(due), "-" + MonthDay(today));
    TextLessPrefix("-", MonthDay(due), MonthDay(today));
    MonthAndDay(due, today);
    DayOrder(due, today);
  }

  // ---- adding days ----

  /** The date some days after another. */
  ghost function Later(d: Date, days: int): Date
    requires IsDate(d)
  {
    DateOf(DayOf(d) + days)
  }

  lemma MakeDayOf(d: Date, days: int)
    requires IsDate(d) && d.year >= 100
    ensures MakeDay(d.year, d.month - 1, d.day + days) == DayOf(d) + days
  {
    assert (d.month - 1) / 12 == 0 && (d.month - 1) % 12 == d.month - 1;
  }

  /** A year that Date.UTC reads as it is written. */
  predicate InRange(d: Date) {
    IsDate(d) && 100 <= d.year <= 9999
  }

  lemma ShiftedDayAdds(text: string, d: Date, days: int)
    requires InRange(d) && Writes(text, d)
    ensures ShiftedDay(text, days) == DayOf(d) + days
  {
    MakeDayOf(d, days);
  }

  /** Days are added on the calendar. */
  lemma AddDaysAdds(text: string, d: Date, days: int)
    requires IsDate(d) && 100 <= d.year <= 9999 && Writes(text, d)
    ensures AddDays(text, days) == IsoPrefix(Later(d, days))
  {
    ShiftedDayAdds(text, d, days);
  }

  lemma AddDaysWrites(text: string, d: Date, days: int)
    requires InRange(d) && Writes(text, d) && Printable(Later(d, days))
    ensures AddDays(text, days) == IsoText(Later(d, days)) && Writes(AddDays(text, days), Later(d, days))
  {
    AddDaysAdds(text, d, days);
    IsoWrites(Later(d, days));
  }

  lemma SameDay(text: string, days: int, other: string, more: int)
    requires IsoShape(text) && IsoShape(other) && ShiftedDay(text, days) == ShiftedDay(other, more)
    ensures AddDays(text, days) == AddDays(other, more)
  {
  }

  lemma ShiftedTwice(text: string, d: Date, a: int, once: string, b: int)
    requires InRange(d) && Writes(text, d) && InRange(Later(d, a)) && Writes(once, Later(d, a))
    ensures ShiftedDay(once, b) == ShiftedDay(text, a + b)
  {
    ShiftedDayAdds(text, d, a + b);
    ShiftedDayAdds(once, Later(d, a), b);
  }

  /** Adding days twice is adding their sum, while the dates stay in range. */
  lemma AddDaysComposes(text: string, d: Date, a: int, once: string, b: int)
    requires InRange(d) && Writes(text, d) && InRange(Later(d, a))
    requires once == AddDays(text, a)
    ensures IsoShape(once) && AddDays(once, b) == AddDays(text, a + b)
  {
    AddDaysWrites(text, d, a);
    ShiftedTwice(text, d, a, once, b);
    SameDay(once, b, text, a + b);
  }

  /** A date is past due some days later exactly when the number of days is positive. */
  lemma PastDueAfterDays(d: Date, days: int)
    requires InRange(d) && Printable(Later(d, days))
    ensures IsoShape(IsoText(d))
    ensures IsPastDue(IsoText(d), AddDays(IsoText(d), days)) <==> days > 0
  {
    IsoWrites(d);
    AddDaysWrites(IsoText(d), d, days);
    PastDueIsEarlier(d, Later(d, days));
  }

  lemma SameDate(a: Date, b: Date)
    requires Printable(a) && a == b
    ensures IsoText(a) == IsoText(b)
  {
  }

  lemma AddNoDays(d: Date, text: string)
    requires InRange(d) && Writes(text, d) && text == IsoText(d)
    ensures AddDays(text, 0) == text
  {
    DateOfDayOf(d);
    AddDaysWrites(text, d, 0);
    SameDate(d, Later(d, 0));
  }

  /** Adding days and taking them away gives the text back. */
  lemma AddDaysUndone(text: string, d: Date, days: int, once: string)
    requires InRange(d) && Writes(text, d) && text == IsoText(d) && InRange(Later(d, days))
    requires once == AddDays(text, days)
    ensures IsoShape(once) && AddDays(once, -days) == text
  {
    AddDaysWrites(text, d, days);
    ShiftedBack(text, d, days, once);
    SameDay(once, -days, text, 0);
    AddNoDays(d, text);
  }

  lemma ShiftedBack(text: string, d: Date, days: int, once: string)
    requires InRange(d) && Writes(text, d) && InRange(Later(d, days)) && Writes(once, Later(d, days))
    ensures ShiftedDay(once, -days) == ShiftedDay(text, 0)
  {
    ShiftedDayAdds(text, d, 0);
    ShiftedDayAdds(once, Later(d, days), -days);
  }

  // ---- dates with other years ----

  /** Other years take six digits and a sign, which leaves room for the month but not for the day. */
  lemma FarDates(d: Date)
    requires IsDate(d) && -1_000_000 < d.year < 1_000_000 && !(0 <= d.year <= 9999)
    ensures var text := IsoPrefix(d);
            && |text| == 10
            && text[0] == (if d.year < 0 then '-' else '+')
            && AllDigits(text[1..7]) && Value(text[1..7]) == (if d.year < 0 then -d.year else d.year)
            && text[7] == '-'
            && AllDigits(text[8..]) && Value(text[8..]) == d.month
  {
    var year: nat := if d.year < 0 then -d.year else d.year;
    assert Pow10(6) == 1_000_000 && Pow10(2) == 100;
    Padded(year, 6);
    Padded(d.month, 2);
    FarText(if d.year < 0 then "-" else "+", PadStart(Digits(year), 6), PadStart(Digits(d.month), 2),
      PadStart(Digits(d.day), 2));
  }

  lemma FarText(sign: string, year: string, month: string, day: string)
    requires |sign| == 1 && |year| == 6 && |month| == 2
    ensures var text := sign + year + "-" + month + "-" + day;
            |text| > 10 && text[..10] == sign + year + "-" + month
    ensures var text := sign + year + "-" + month;
            |text| == 10 && text[0] == sign[0] && text[1..7] == year && text[7] == '-' && text[8..] == month
  {
  }

  lemma DigitFirst(text: string)
    ensures IsoShape(text) ==> IsDigit(text[0])
  {
    assert IsoShape(text) ==> IsDigit(text[..4][0]);
  }

  lemma SignFirst(d: Date)
    requires IsDate(d) && !(0 <= d.year <= 9999)
    ensures IsoPrefix(d) != "" && !IsDigit(IsoPrefix(d)[0])
  {
  }

  /** The sum is a text YYYY-MM-DD exactly when its year has at most four digits. */
  lemma AddDaysShape(text: string, d: Date, days: int)
    requires IsDate(d) && 100 <= d.year <= 9999 && Writes(text, d)
    ensures IsoShape(AddDays(text, days)) <==> 0 <= Later(d, days).year <= 9999
  {
    AddDaysAdds(text, d, days);
    DateOfDayOf(d);
    if 0 <= Later(d, days).year <= 9999 {
      AddDaysWrites(text, d, days);
    } else {
      SignFirst(Later(d, days));
      DigitFirst(IsoPrefix(Later(d, days)));
    }
  }
}
