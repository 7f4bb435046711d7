/**
 * Document numbers: the next number of a series is one more than the largest text the series holds,
 * read under a lock that lasts until the transaction ends.
 */
module DocumentNumbering {
  import opened Arithmetic
  import opened BusinessDate
  import opened Calendar
  import opened Decimals
  import opened Results
  import opened Texts

  // ---- requests and tables ----

  datatype Scope = Scope(column: string, value: string)

  /** A request; `year` is the year of the series. */
  datatype Request = Request(prefix: string, table: string, column: string, year: string, scope: Option<Scope>,
                             padding: int)

  /** A row of a table: the text of each of its columns. */
  datatype Record = Record(table: string, fields: map<string, string>)

  /** The date of a document: an instant, by its year in UTC, or a text. */
  datatype DocumentDate = Instant(utcYear: int) | Written(text: string)

  /** The four digits a text begins with, or the current year. */
  function SeriesYear(date: DocumentDate, currentYear: nat): string {
    match date
    case Instant(utcYear) => IntegerText(utcYear)
    case Written(text) => if |text| >= 4 && AllDigits(text[..4]) then text[..4] else Digits(currentYear)
  }

  /** A document dated by instant or by text is in the same series exactly from the year 1000 on. */
  lemma SeriesYearsAgree(d: Date, currentYear: nat)
    requires Printable(d)
    ensures SeriesYear(Written(IsoText(d)), currentYear) == SeriesYear(Instant(d.year), currentYear) <==> d.year >= 1000
  {
    IsoWrites(d);
    IsoYear(d);
    DigitsLength(d.year, 3);
    assert Pow10(3) == 1000;
    PadStartValue(Digits(d.year), 4);
  }

  /** A text that begins with a year is of that year. */
  lemma YearOfText(year: string, rest: string, currentYear: nat)
    requires |year| == 4 && AllDigits(year)
    ensures SeriesYear(Written(year + rest), currentYear) == year
  {
    assert (year + rest)[..4] == year;
  }

  /** Any other text is of the current year. */
  lemma NoYearInText(text: string, i: nat, currentYear: nat)
    requires i < 4 && (i < |text| ==> !IsDigit(text[i]))
    ensures SeriesYear(Written(text), currentYear) == Digits(currentYear)
  {
    if |text| >= 4 {
      assert text[..4][i] == text[i];
    }
  }

  function SeriesPrefix(r: Request): string {
    r.prefix + "-" + r.year + "-"
  }

  /** The text whose hash is the key of the lock. */
  function LockText(r: Request): string {
    r.table + "." + r.column + ":" +
    (if r.scope.Some? then r.scope.value.column + ":" + r.scope.value.value else "global") + ":" + SeriesPrefix(r)
  }

  /** SQL pattern matching: a percent sign is any text, an underscore any character, a backslash escapes. */
  predicate Like(text: string, pattern: string)
    decreases |text| + |pattern|
  {
    if pattern == "" then text == ""
    else if pattern[0] == '%' then Like(text, pattern[1..]) || (text != "" && Like(text[1..], pattern))
    else if pattern[0] == '\\' then
      |pattern| > 1 && text != "" && text[0] == pattern[1] && Like(text[1..], pattern[2..])
    else text != "" && (pattern[0] == '_' || pattern[0] == text[0]) && Like(text[1..], pattern[1..])
  }

  /** The row counts for the series. */
  predicate Matches(r: Request, record: Record) {
    && record.table == r.table
    && r.column in record.fields
    && Like(record.fields[r.column], SeriesPrefix(r) + "%")
    && (r.scope.Some? ==>
          r.scope.value.column in record.fields && record.fields[r.scope.value.column] == r.scope.value.value)
  }

  /** The numbers of the series, in table order. */
  function Numbers(r: Request, records: seq<Record>): seq<string> {
    if records == [] then []
    else
      var last := records[|records| - 1];
      Numbers(r, records[..|records| - 1]) + if Matches(r, last) then [last.fields[r.column]] else []
  }

  /** SQL MAX over texts. */
  function MaxText(texts: seq<string>): Option<string> {
    if texts == [] then None
    else
      var last := texts[|texts| - 1];
      var rest := MaxText(texts[..|texts| - 1]);
      if rest.Some? && TextLess(last, rest.value) then rest else Some(last)
  }

  /** MAX is one of the texts, and none is larger. */
  lemma {:induction false} MaxTextIsLargest(texts: seq<string>, i: nat)
    requires i < |texts|
    ensures MaxText(texts).Some? && MaxText(texts).value in texts
    ensures !TextLess(MaxText(texts).value, texts[i])
    decreases |texts|
  {
    var init, last := texts[..|texts| - 1], texts[|texts| - 1];
    TextTotal(last, last);
    if init != [] {
      var j := if i < |init| then i else 0;
      MaxTextIsLargest(init, j);
      var best := MaxText(init).value;
      TextTotal(last, best);
      if i < |init| && TextLess(best, last) && TextLess(last, texts[i]) {
        TextLessTransitive(best, last, texts[i]);
      }
    }
  }

  function LeadingDigits(s: string): (d: string)
    ensures AllDigits(d)
  {
    if s == "" || !IsDigit(s[0]) then "" else [s[0]] + LeadingDigits(s[1..])
  }

  /** The integer a text begins with, if it begins with one. */
  function ParseInt(s: string): Option<int> {
    var t := TrimStart(s);
    var negative := t != "" && t[0] == '-';
    var signed := t != "" && (t[0] == '-' || t[0] == '+');
    var digits := LeadingDigits(if signed then t[1..] else t);
    if digits == "" then None
    else
      var magnitude: int := Value(digits);
      Some(if negative then -magnitude else magnitude)
  }

  /** The number that follows the ones the transaction sees in the table. */
  function NextNumber(r: Request, visible: seq<Record>): string {
    var prefix := SeriesPrefix(r);
    var last := MaxText(Numbers(r, visible));
    var count :=
      if last.None? || last.value == "" then Some(0)
      else ParseInt(if |prefix| <= |last.value| then last.value[|prefix|..] else "");
    prefix + PadStart(IntegerText(if count.Some? then count.value + 1 else 1), r.padding)
  }

  // ---- series and locks by their parts ----

  predicate Dashless(r: Request) {
    '-' !in r.prefix && '-' !in r.year
  }

  lemma PrefixParts(r: Request, rest: string)
    ensures SeriesPrefix(r) + rest == r.prefix + ['-'] + (r.year + ['-'] + rest)
  {
  }

  /** The series of a number is told by its prefix and year: no series' numbers begin with those of another. */
  lemma SeriesByFields(r: Request, other: Request, rest: string)
    requires Dashless(r) && Dashless(other)
    ensures SeriesPrefix(r) == SeriesPrefix(other) + rest ==>
      r.prefix == other.prefix && r.year == other.year && rest == ""
    ensures r.prefix == other.prefix && r.year == other.year ==> SeriesPrefix(r) == SeriesPrefix(other)
  {
    PrefixParts(r, "");
    PrefixParts(other, rest);
    assert SeriesPrefix(r) + "" == SeriesPrefix(r);
    if SeriesPrefix(r) == SeriesPrefix(other) + rest {
      SplitAt(r.prefix, r.year + ['-'] + "", other.prefix, other.year + ['-'] + rest, '-');
      SplitAt(r.year, "", other.year, rest, '-');
    }
  }

  function ScopeText(scope: Option<Scope>): string {
    if scope.Some? then scope.value.column + ":" + scope.value.value else "global"
  }

  /** Names as identifiers are, and a scope value without colons. */
  predicate PlainNames(r: Request) {
    && ':' !in r.table && ':' !in r.column && '.' !in r.column && ':' !in r.prefix && ':' !in r.year
    && (r.scope.Some? ==> ':' !in r.scope.value.column && ':' !in r.scope.value.value)
  }

  lemma LockParts(r: Request)
    ensures LockText(r) == (r.table + ['.'] + r.column) + [':'] + (ScopeText(r.scope) + [':'] + SeriesPrefix(r))
  {
  }

  lemma ScopesByText(a: Option<Scope>, b: Option<Scope>)
    requires a.Some? ==> ':' !in a.value.column && ':' !in a.value.value
    requires b.Some? ==> ':' !in b.value.column && ':' !in b.value.value
    requires ScopeText(a) == ScopeText(b)
    ensures a == b
  {
    ScopeColon(a);
    ScopeColon(b);
    if a.Some? && b.Some? {
      assert a.value.column + [':'] + a.value.value == b.value.column + [':'] + b.value.value;
      SplitAt(a.value.column, a.value.value, b.value.column, b.value.value, ':');
    }
  }

  lemma ScopeColon(scope: Option<Scope>)
    ensures scope.Some? <==> ':' in ScopeText(scope)
  {
    if scope.Some? {
      assert ScopeText(scope)[|scope.value.column|] == ':';
    }
  }

  /** Requests take the same lock text exactly if they are for one series of one column in one scope. */
  lemma LockPerSeries(r: Request, other: Request)
    requires PlainNames(r) && PlainNames(other) && Dashless(r) && Dashless(other)
    ensures LockText(r) == LockText(other) <==>
            && r.table == other.table && r.column == other.column && r.scope == other.scope
            && r.prefix == other.prefix && r.year == other.year
  {
    LockParts(r);
    LockParts(other);
    SeriesByFields(r, other, "");
    assert SeriesPrefix(other) + "" == SeriesPrefix(other);
    if LockText(r) == LockText(other) {
      SplitAt(r.table + ['.'] + r.column, ScopeText(r.scope) + [':'] + SeriesPrefix(r),
        other.table + ['.'] + other.column, ScopeText(other.scope) + [':'] + SeriesPrefix(other), ':');
      SplitAt(r.table, r.column, other.table, other.column, '.');
      SplitAt(ScopeText(r.scope), SeriesPrefix(r), ScopeText(other.scope), SeriesPrefix(other), ':');
      ScopesByText(r.scope, other.scope);
    }
  }

  // ---- the numbers of a series ----

  /** Without pattern characters the series is exactly the texts that begin with its prefix. */
  predicate Plain(prefix: string) {
    forall i :: 0 <= i < |prefix| ==> prefix[i] != '%' && prefix[i] != '_' && prefix[i] != '\\'
  }

  lemma {:induction false} LikeAnything(text: string)
    ensures Like(text, "%")
    decreases |text|
  {
    if text != "" {
      LikeAnything(text[1..]);
    }
  }

  lemma {:induction false} LikePlain(text: string, prefix: string)
    requires Plain(prefix)
    ensures Like(text, prefix + "%") <==> prefix <= text
    decreases |prefix|
  {
    if prefix == "" {
      LikeAnything(text);
      assert prefix + "%" == "%";
    } else {
      assert (prefix + "%")[1..] == prefix[1..] + "%";
      if text != "" && text[0] == prefix[0] {
        LikePlain(text[1..], prefix[1..]);
        assert prefix == [prefix[0]] + prefix[1..] && text == [text[0]] + text[1..];
      }
    }
  }

  /** A percent sign stands for any text. */
  lemma {:induction false} LikePercent(text: string, pattern: string)
    ensures Like(text, "%" + pattern) <==> exists k :: 0 <= k <= |text| && Like(text[k..], pattern)
    decreases |text|
  {
    var all := "%" + pattern;
    assert all[0] == '%' && all[1..] == pattern && text[0..] == text;
    if text != "" {
      var tail := text[1..];
      LikePercent(tail, pattern);
      assert Like(text, all) <==> Like(text, pattern) || Like(tail, all);
      assert forall k :: 0 <= k <= |tail| ==> tail[k..] == text[k + 1..];
      assert forall k :: 1 <= k <= |text| ==> text[k..] == tail[k - 1..];
    }
  }

  /** An underscore stands for one character, and a character behind a backslash for itself. */
  lemma LikeOne(c: char, text: string, pattern: string)
    ensures Like([c] + text, "_" + pattern) <==> Like(text, pattern)
    ensures Like([c] + text, "\\" + [c] + pattern) <==> Like(text, pattern)
    ensures !Like("", "_" + pattern)
  {
    assert ("_" + pattern)[1..] == pattern && ([c] + text)[1..] == text;
    assert ("\\" + [c] + pattern)[2..] == pattern && ("\\" + [c] + pattern)[1] == c;
  }

  /** With an underscore in the prefix the numbers of other series count too, whatever character they have there. */
  lemma {:induction false} UnderscoreCounts(p: string, c: char, q: string, rest: string)
    requires Plain(p) && Plain(q)
    ensures Like(p + ([c] + (q + rest)), p + ("_" + (q + "%")))
    decreases |p|
  {
    if p == "" {
      LikePlain(q + rest, q);
      LikeOne(c, q + rest, q + "%");
      assert p + ([c] + (q + rest)) == [c] + (q + rest) && p + ("_" + (q + "%")) == "_" + (q + "%");
    } else {
      UnderscoreCounts(p[1..], c, q, rest);
      assert (p + ([c] + (q + rest)))[1..] == p[1..] + ([c] + (q + rest));
      assert (p + ("_" + (q + "%")))[1..] == p[1..] + ("_" + (q + "%"));
    }
  }

  /** Digits that are always compared: at least one, whatever the padding. */
  function Width(r: Request): nat {
    if r.padding < 1 then 1 else r.padding
  }

  /** The largest number that a series reaches. */
  function Last(r: Request): nat {
    Pow10(Width(r))
  }

  function Numbered(r: Request, n: nat): string {
    SeriesPrefix(r) + PadStart(Digits(n), r.padding)
  }

  /** The i-th number of a series: they run from 1 and stop one past the last that fits the padding. */
  function Issued(r: Request, i: nat): string {
    Numbered(r, if i < Last(r) then i else Last(r))
  }

  function IssuedTo(r: Request, n: nat): seq<string> {
    seq(n, (i: nat) => Issued(r, i + 1))
  }

  lemma {:induction false} LeadingDigitsAll(s: string)
    requires AllDigits(s)
    ensures LeadingDigits(s) == s
    decreases |s|
  {
    if s != "" {
      LeadingDigitsAll(s[1..]);
      assert s == [s[0]] + s[1..];
    }
  }

  lemma ParsePadded(n: nat, padding: int)
    ensures ParseInt(PadStart(Digits(n), padding)) == Some(n)
  {
    var s := PadStart(Digits(n), padding);
    ValueOfDigits(n);
    PadStartValue(Digits(n), padding);
    assert IsDigit(s[0]);
    LeadingDigitsAll(s);
  }

  lemma {:induction false} LeadingDigitsThen(digits: string, rest: string)
    requires AllDigits(digits) && (rest == "" || !IsDigit(rest[0]))
    ensures LeadingDigits(digits + rest) == digits
    decreases |digits|
  {
    if digits == "" {
      assert digits + rest == rest;
    } else {
      assert (digits + rest)[1..] == digits[1..] + rest;
      LeadingDigitsThen(digits[1..], rest);
    }
  }

  /** An integer with or without sign is read up to what is not a digit; without digits there is none. */
  lemma ParseSigned(sign: string, digits: string, rest: string)
    requires sign in {"", "+", "-"} && AllDigits(digits) && (rest == "" || !IsDigit(rest[0]))
    requires digits != "" || sign != ""
    ensures ParseInt(sign + digits + rest) ==
            if digits == "" then None else Some(if sign == "-" then -(Value(digits) as int) else Value(digits))
  {
    var s, u := sign + digits + rest, digits + rest;
    LeadingDigitsThen(digits, rest);
    if sign == "" {
      assert s == u && s[0] == digits[0];
      ParseUnsigned(s, digits);
    } else {
      assert s[0] == sign[0] && s[1..] == u;
      ParseAfterSign(s, u, digits);
    }
  }

  lemma ParseUnsigned(s: string, digits: string)
    requires s != "" && IsDigit(s[0]) && AllDigits(digits) && digits != "" && LeadingDigits(s) == digits
    ensures ParseInt(s) == Some(Value(digits))
  {
  }

  lemma ParseAfterSign(s: string, u: string, digits: string)
    requires s != "" && (s[0] == '-' || s[0] == '+') && u == s[1..] && AllDigits(digits) && LeadingDigits(u) == digits
    ensures ParseInt(s) ==
            if digits == "" then None else Some(if s[0] == '-' then -(Value(digits) as int) else Value(digits))
  {
  }

  lemma PaddedLength(r: Request, n: nat)
    ensures |PadStart(Digits(n), r.padding)| == Width(r) <==> n < Last(r)
    ensures |PadStart(Digits(n), r.padding)| >= Width(r)
    ensures AllDigits(PadStart(Digits(n), r.padding)) && Value(PadStart(Digits(n), r.padding)) == n
  {
    ValueOfDigits(n);
    PadStartValue(Digits(n), r.padding);
    DigitsLength(n, Width(r));
  }

  /** While numbers fit the padding, text order is numeric order. */
  lemma FittingOrder(r: Request, m: nat, n: nat)
    requires m < Last(r) && n < Last(r)
    ensures TextLess(Numbered(r, m), Numbered(r, n)) <==> m < n
  {
    PaddedLength(r, m);
    PaddedLength(r, n);
    TextOrder(PadStart(Digits(m), r.padding), PadStart(Digits(n), r.padding));
    TextLessPrefix(SeriesPrefix(r), PadStart(Digits(m), r.padding), PadStart(Digits(n), r.padding));
  }

  lemma FirstDigit(s: string, w: nat, d: nat, rest: nat)
    requires AllDigits(s) && |s| == w + 1 && d < 10 && rest < Pow10(w)
    requires Value(s) == d * Pow10(w) + rest
    ensures DigitOf(s[0]) == d
  {
    ValueHead(s);
    ValueBound(s[1..]);
    var p, e := Pow10(w), DigitOf(s[0]);
    if e < d {
      MulSucc(e, p);
      MulMonotone(e + 1, d, p);
    } else if d < e {
      MulSucc(d, p);
      MulMonotone(d + 1, e, p);
    }
  }

  /** The first number that does not fit the padding sorts before the last one that does. */
  lemma OverflowOrder(r: Request)
    ensures Last(r) >= 10
    ensures TextLess(Numbered(r, Last(r)), Numbered(r, Last(r) - 1))
  {
    var w := Width(r);
    Pow10Mono(1, w);
    var over, fit := PadStart(Digits(Last(r)), r.padding), PadStart(Digits(Last(r) - 1), r.padding);
    PaddedLength(r, Last(r));
    PaddedLength(r, Last(r) - 1);
    DigitsLength(Last(r), w + 1);
    DigitsLength(Last(r), w);
    FirstDigit(over, w, 1, 0);
    FirstDigit(fit, w - 1, 9, Pow10(w - 1) - 1);
    TextLessPrefix(SeriesPrefix(r), over, fit);
  }

  lemma MaxTextNext(init: seq<string>, last: string, texts: seq<string>)
    requires texts == init + [last]
    ensures MaxText(texts) ==
      if MaxText(init).Some? && TextLess(last, MaxText(init).value) then MaxText(init) else Some(last)
  {
    assert texts[..|texts| - 1] == init;
  }

  lemma IssuedNext(r: Request, n: nat)
    requires n > 0
    ensures IssuedTo(r, n) == IssuedTo(r, n - 1) + [Issued(r, n)]
  {
  }

  lemma {:induction false} LargestIssued(r: Request, n: nat)
    requires n > 0
    ensures MaxText(IssuedTo(r, n)) == Some(Numbered(r, if n < Last(r) then n else Last(r) - 1))
  {
    OverflowOrder(r);
    IssuedNext(r, n);
    MaxTextNext(IssuedTo(r, n - 1), Issued(r, n), IssuedTo(r, n));
    if n > 1 {
      LargestIssued(r, n - 1);
      if n < Last(r) {
        FittingOrder(r, n, n - 1);
      }
    }
  }

  /** The number after a given last one that is in order. */
  lemma NumberAfter(r: Request, visible: seq<Record>, last: nat)
    requires MaxText(Numbers(r, visible)) == Some(Numbered(r, last))
    ensures NextNumber(r, visible) == Numbered(r, last + 1)
  {
    assert Numbered(r, last)[|SeriesPrefix(r)|..] == PadStart(Digits(last), r.padding);
    ParsePadded(last, r.padding);
  }

  lemma FirstNumber(r: Request, visible: seq<Record>)
    requires Numbers(r, visible) == []
    ensures NextNumber(r, visible) == Numbered(r, 1)
  {
  }

  lemma SixDigits(r: Request, n: nat, digits: string, zeros: nat)
    requires r.padding == 6 && AllDigits(digits) && Value(digits) == n && Digits(n) == digits && zeros + |digits| == 6
    ensures Numbered(r, n) == SeriesPrefix(r) + (Zeros(zeros) + digits)
  {
  }

  lemma DigitsOf(n: nat, tens: nat, units: nat)
    requires tens < 10 && units < 10 && n == 10 * tens + units
    ensures Digits(n) == if tens == 0 then [DigitChar(units)] else [DigitChar(tens)] + [DigitChar(units)]
    ensures Value(Digits(n)) == n
  {
    ValueOfDigits(n);
    assert n / 10 == tens && n % 10 == units;
  }

  /** The first proposal of a year. */
  lemma FirstProposal(r: Request, visible: seq<Record>)
    requires r.prefix == "PROP" && r.year == "2026" && r.padding == 6 && Numbers(r, visible) == []
    ensures NextNumber(r, visible) == "PROP-2026-000001"
  {
    FirstNumber(r, visible);
    DigitsOf(1, 0, 1);
    SixDigits(r, 1, ['1'], 5);
    assert SeriesPrefix(r) == "PROP-2026-" && Zeros(5) == "00000";
  }

  lemma ReceiptText(r: Request, n: nat, units: nat, last: string)
    requires r.prefix == "REC" && r.year == "2026" && r.padding == 6
    requires n == 40 + units && units < 10 && last == "REC-2026-00004" + [DigitChar(units)]
    ensures Numbered(r, n) == last
  {
    DigitsOf(n, 4, units);
    SixDigits(r, n, Digits(n), 4);
    assert SeriesPrefix(r) == "REC-2026-" && Zeros(4) == "0000" && DigitChar(4) == '4';
  }

  /** The receipt after the forty-first. */
  lemma NextReceipt(r: Request, visible: seq<Record>)
    requires r.prefix == "REC" && r.year == "2026" && r.padding == 6
    requires MaxText(Numbers(r, visible)) == Some("REC-2026-000041")
    ensures NextNumber(r, visible) == "REC-2026-000042"
  {
    ReceiptText(r, 41, 1, "REC-2026-000041");
    ReceiptText(r, 42, 2, "REC-2026-000042");
    NumberAfter(r, visible, 41);
  }

  /**
   * After the first n numbers of a series comes the next one. Text order puts ten to the power of the
   * padding below the number before it, so from there on that number is given again and again.
   */
  lemma NextAfterIssued(r: Request, visible: seq<Record>, n: nat)
    requires Numbers(r, visible) == IssuedTo(r, n)
    ensures NextNumber(r, visible) == Issued(r, n + 1)
  {
    OverflowOrder(r);
    if n > 0 {
      var last := if n < Last(r) then n else Last(r) - 1;
      LargestIssued(r, n);
      assert Numbered(r, last)[|SeriesPrefix(r)|..] == PadStart(Digits(last), r.padding);
      ParsePadded(last, r.padding);
    }
  }

  /** The first n numbers are all different exactly when they stay within one past the padding. */
  lemma DistinctWhileFitting(r: Request, n: nat)
    ensures (forall i, j :: 0 <= i < j < n ==> IssuedTo(r, n)[i] != IssuedTo(r, n)[j]) <==> n <= Last(r)
  {
    if n <= Last(r) {
      forall i, j | 0 <= i < j < n
        ensures IssuedTo(r, n)[i] != IssuedTo(r, n)[j]
      {
        NumberedInjective(r, i + 1, j + 1);
      }
    } else {
      OverflowOrder(r);
      var texts := IssuedTo(r, n);
      assert texts[Last(r) - 1] == texts[Last(r)];
    }
  }

  lemma NumberedInjective(r: Request, m: nat, n: nat)
    requires m != n
    ensures Numbered(r, m) != Numbered(r, n)
  {
    PaddedLength(r, m);
    PaddedLength(r, n);
    var k := |SeriesPrefix(r)|;
    assert Numbered(r, m)[k..] == PadStart(Digits(m), r.padding);
    assert Numbered(r, n)[k..] == PadStart(Digits(n), r.padding);
  }

  // ---- emitting transactions ----

  /** Locks taken, rows inserted but not committed, and numbers asked for but not inserted yet. */
  datatype Tx = Tx(locks: set<int>, writes: seq<Record>, pending: map<Request, string>)

  datatype State = State(table: seq<Record>, txs: map<nat, Tx>)

  datatype Action =
    | Begin(id: nat)
    | Lock(id: nat, request: Request)
    | Read(id: nat, request: Request)
    | Insert(id: nat, request: Request, record: Record)
    | Write(id: nat, record: Record)
    | Commit(id: nat)
    | Abort(id: nat)

  /** `hash` maps the text of a lock to its key; two texts may share one. */
  predicate LockBusy(s: State, id: nat, key: int) {
    exists other :: other in s.txs && other != id && key in s.txs[other].locks
  }

  /** The record carries the number in its column and belongs to the scope of the request. */
  predicate Carries(record: Record, r: Request, number: string) {
    && record.table == r.table
    && r.column in record.fields && record.fields[r.column] == number
    && (r.scope.Some? ==>
          r.scope.value.column in record.fields && record.fields[r.scope.value.column] == r.scope.value.value)
  }

  /**
   * The lock is taken before the table is read, and the caller inserts a number before it asks for the
   * next one of the series or ends its transaction.
   */
  predicate Enabled(s: State, hash: string -> int, a: Action) {
    match a
    case Begin(id) => id !in s.txs
    case Lock(id, r) => id in s.txs && !LockBusy(s, id, hash(LockText(r)))
    case Read(id, r) => id in s.txs && hash(LockText(r)) in s.txs[id].locks && r !in s.txs[id].pending
    case Insert(id, r, record) =>
      id in s.txs && r in s.txs[id].pending && Carries(record, r, s.txs[id].pending[r])
    case Write(id, _) => id in s.txs
    case Commit(id) => id in s.txs && s.txs[id].pending == map[]
    case Abort(id) => id in s.txs
  }

  function Next(s: State, hash: string -> int, a: Action): State
    requires Enabled(s, hash, a)
  {
    match a
    case Begin(id) => s.(txs := s.txs[id := Tx({}, [], map[])])
    case Lock(id, r) =>
      var tx := s.txs[id];
      s.(txs := s.txs[id := tx.(locks := tx.locks + {hash(LockText(r))})])
    case Read(id, r) =>
      var tx := s.txs[id];
      s.(txs := s.txs[id := tx.(pending := tx.pending[r := NextNumber(r, s.table + tx.writes)])])
    case Insert(id, r, record) =>
      var tx := s.txs[id];
      s.(txs := s.txs[id := tx.(writes := tx.writes + [record], pending := tx.pending - {r})])
    case Write(id, record) =>
      var tx := s.txs[id];
      s.(txs := s.txs[id := tx.(writes := tx.writes + [record])])
    case Commit(id) => State(s.table + s.txs[id].writes, s.txs - {id})
    case Abort(id) => s.(txs := s.txs - {id})
  }

  function Execute(s: State, hash: string -> int, actions: seq<Action>): Option<State>
    decreases |actions|
  {
    if actions == [] then Some(s)
    else if Enabled(s, hash, actions[0]) then Execute(Next(s, hash, actions[0]), hash, actions[1..])
    else None
  }

  // ---- the call ----

  /** The transaction of one caller and the committed rows it sees. */
  class Connection {
    const hash: string -> int
    var table: seq<Record>
    var tx: Tx

    constructor (hash: string -> int, table: seq<Record>, tx: Tx)
      ensures this.hash == hash && this.table == table && this.tx == tx
    {
      this.hash := hash;
      this.table := table;
      this.tx := tx;
    }

    /** Takes the lock of the series, reads its last number and computes the next. */
    method NextDocumentNumber(r: Request) returns (number: string)
      modifies this`tx
      ensures number == NextNumber(r, table + old(tx).writes)
      ensures tx == old(tx).(locks := old(tx).locks + {hash(LockText(r))}, pending := old(tx).pending[r := number])
    {
      var prefix := SeriesPrefix(r);
      tx := tx.(locks := tx.locks + {hash(LockText(r))});
      var last := MaxText(Numbers(r, table + tx.writes));
      var count := Some(0);
      if last.Some? && last.value != "" {
        count := ParseInt(if |prefix| <= |last.value| then last.value[|prefix|..] else "");
      }
      var next := 1;
      if count.Some? {
        next := count.value + 1;
      }
      number := prefix + PadStart(IntegerText(next), r.padding);
      tx := tx.(pending := tx.pending[r := number]);
    }
  }

  /** A call is a lock and a read, once nobody else holds the lock. */
  lemma CallIsLockAndRead(s: State, hash: string -> int, id: nat, r: Request)
    requires id in s.txs && !LockBusy(s, id, hash(LockText(r))) && r !in s.txs[id].pending
    ensures var tx := s.txs[id];
            Execute(s, hash, [Lock(id, r), Read(id, r)]) ==
            Some(s.(txs := s.txs[id := tx.(locks := tx.locks + {hash(LockText(r))},
                                            pending := tx.pending[r := NextNumber(r, s.table + tx.writes)])]))
  {
    var tx := s.txs[id];
    var holding := tx.(locks := tx.locks + {hash(LockText(r))});
    var asking := holding.(pending := tx.pending[r := NextNumber(r, s.table + tx.writes)]);
    assert s.txs[id := holding][id := asking] == s.txs[id := asking];
    var locked := Next(s, hash, Lock(id, r));
    assert [Lock(id, r), Read(id, r)][1..] == [Read(id, r)];
    assert [Read(id, r)][1..] == [];
    assert Execute(locked, hash, [Read(id, r)]) == Some(Next(locked, hash, Read(id, r)));
  }

  lemma ExecuteFirst(s: State, hash: string -> int, a: Action, rest: seq<Action>)
    requires Enabled(s, hash, a)
    ensures Execute(s, hash, [a] + rest) == Execute(Next(s, hash, a), hash, rest)
  {
    assert ([a] + rest)[1..] == rest;
  }

  /** The state once a transaction of its own has asked for a number. */
  function Asked(s: State, hash: string -> int, id: nat, r: Request): State {
    s.(txs := s.txs[id := Tx({hash(LockText(r))}, [], map[r := NextNumber(r, s.table)])])
  }

  lemma HoldingAfter(s: State, hash: string -> int, id: nat, r: Request, rest: seq<Action>)
    requires id !in s.txs && !LockBusy(s, id, hash(LockText(r)))
    ensures Execute(s, hash, [Begin(id)] + ([Lock(id, r)] + rest)) ==
            Execute(s.(txs := s.txs[id := Tx({hash(LockText(r))}, [], map[])]), hash, rest)
  {
    var key := hash(LockText(r));
    var begun := s.(txs := s.txs[id := Tx({}, [], map[])]);
    ExecuteFirst(s, hash, Begin(id), [Lock(id, r)] + rest);
    ExecuteFirst(begun, hash, Lock(id, r), rest);
    assert {} + {key} == {key};
    assert begun.txs[id := Tx({key}, [], map[])] == s.txs[id := Tx({key}, [], map[])];
  }

  lemma AskedAfter(s: State, hash: string -> int, id: nat, r: Request, rest: seq<Action>)
    requires id !in s.txs && !LockBusy(s, id, hash(LockText(r)))
    ensures Execute(s, hash, [Begin(id)] + ([Lock(id, r)] + ([Read(id, r)] + rest))) ==
            Execute(Asked(s, hash, id, r), hash, rest)
  {
    var key := hash(LockText(r));
    var holding := s.(txs := s.txs[id := Tx({key}, [], map[])]);
    var asking := Tx({key}, [], map[r := NextNumber(r, s.table)]);
    HoldingAfter(s, hash, id, r, [Read(id, r)] + rest);
    ExecuteFirst(holding, hash, Read(id, r), rest);
    assert s.table + [] == s.table;
    assert holding.txs[id := asking] == s.txs[id := asking];
  }

  lemma InsertedAfter(s: State, hash: string -> int, id: nat, r: Request, record: Record, done: State)
    requires id !in s.txs && Carries(record, r, NextNumber(r, s.table))
    requires done == s.(txs := s.txs[id := Tx({hash(LockText(r))}, [record], map[])])
    ensures Enabled(Asked(s, hash, id, r), hash, Insert(id, r, record))
    ensures Next(Asked(s, hash, id, r), hash, Insert(id, r, record)) == done
  {
    var asked := Asked(s, hash, id, r);
    assert [] + [record] == [record] && asked.txs[id].pending - {r} == map[];
    assert asked.txs[id := done.txs[id]] == done.txs;
  }

  lemma CommitAlone(s: State, hash: string -> int, id: nat, tx: Tx, committed: State)
    requires id !in s.txs && tx.pending == map[]
    requires committed == State(s.table + tx.writes, s.txs)
    ensures Execute(s.(txs := s.txs[id := tx]), hash, [Commit(id)]) == Some(committed)
  {
    var busy := s.(txs := s.txs[id := tx]);
    ExecuteFirst(busy, hash, Commit(id), []);
    assert busy.txs - {id} == s.txs;
    assert [Commit(id)] + [] == [Commit(id)];
  }

  lemma InsertAndCommit(s: State, hash: string -> int, id: nat, r: Request, record: Record, rest: seq<Action>)
    requires id !in s.txs && Carries(record, r, NextNumber(r, s.table))
    requires rest == [Insert(id, r, record)] + [Commit(id)]
    ensures Execute(Asked(s, hash, id, r), hash, rest) == Some(State(s.table + [record], s.txs))
  {
    var tx := Tx({hash(LockText(r))}, [record], map[]);
    InsertedAfter(s, hash, id, r, record, s.(txs := s.txs[id := tx]));
    ExecuteFirst(Asked(s, hash, id, r), hash, Insert(id, r, record), [Commit(id)]);
    CommitAlone(s, hash, id, tx, State(s.table + [record], s.txs));
  }

  /** Nothing but another holder of the lock keeps a transaction from asking, inserting and committing. */
  lemma CallCommits(s: State, hash: string -> int, id: nat, r: Request, record: Record, rest: seq<Action>)
    requires id !in s.txs && !LockBusy(s, id, hash(LockText(r)))
    requires Carries(record, r, NextNumber(r, s.table))
    requires rest == [Insert(id, r, record)] + [Commit(id)]
    ensures Execute(s, hash, [Begin(id)] + ([Lock(id, r)] + ([Read(id, r)] + rest))) ==
            Some(State(s.table + [record], s.txs))
  {
    AskedAfter(s, hash, id, r, rest);
    InsertAndCommit(s, hash, id, r, record, rest);
  }

  /** And one that gives up leaves nothing behind, so its number is given again. */
  lemma CallAborts(s: State, hash: string -> int, id: nat, r: Request)
    requires id !in s.txs && !LockBusy(s, id, hash(LockText(r)))
    ensures Execute(s, hash, [Begin(id)] + ([Lock(id, r)] + ([Read(id, r)] + [Abort(id)]))) == Some(s)
  {
    var asked := Asked(s, hash, id, r);
    AskedAfter(s, hash, id, r, [Abort(id)]);
    ExecuteFirst(asked, hash, Abort(id), []);
    assert asked.txs - {id} == s.txs;
    assert [Abort(id)] + [] == [Abort(id)];
  }

  // ---- series that keep apart ----

  /**
   * No number of one series can count for the other: they are in different tables, or in one column under
   * prefixes that do not extend each other, or in different scopes of one column.
   */
  predicate Apart(r: Request, other: Request) {
    || r.table != other.table
    || (r.column == other.column &&
        !(SeriesPrefix(r) <= SeriesPrefix(other)) && !(SeriesPrefix(other) <= SeriesPrefix(r)))
    || (r.scope.Some? && other.scope.Some? && r.scope.value.column == other.scope.value.column &&
        r.scope.value.value != other.scope.value.value)
  }

  /** Numbers are asked for the series or for one apart from it, and other writes do not count for it. */
  predicate Separate(r: Request, a: Action) {
    match a
    case Insert(_, other, _) => other == r || Apart(r, other)
    case Write(_, record) => !Matches(r, record)
    case _ => true
  }

  lemma CommonPrefix(p: string, q: string, text: string)
    ensures p <= text && q <= text ==> p <= q || q <= p
  {
    if p <= text && q <= text && |p| <= |q| {
      assert p == text[..|p|] == q[..|p|];
    } else if p <= text && q <= text {
      assert q == text[..|q|] == p[..|q|];
    }
  }

  /** By fields: other tables, another prefix or year in one column, or other values of one scope. */
  lemma ApartByFields(r: Request, other: Request)
    requires Dashless(r) && Dashless(other)
    ensures Apart(r, other) <==>
      || r.table != other.table
      || (r.column == other.column && (r.prefix != other.prefix || r.year != other.year))
      || (r.scope.Some? && other.scope.Some? && r.scope != other.scope &&
          r.scope.value.column == other.scope.value.column)
  {
    var mine, theirs := SeriesPrefix(r), SeriesPrefix(other);
    if mine <= theirs {
      assert theirs == mine + theirs[|mine|..];
      SeriesByFields(other, r, theirs[|mine|..]);
    }
    if theirs <= mine {
      assert mine == theirs + mine[|theirs|..];
      SeriesByFields(r, other, mine[|theirs|..]);
    }
    SeriesByFields(r, other, "");
  }

  /** A record that carries a number of a series apart does not count, whatever that number is. */
  lemma ApartNeverMatches(r: Request, other: Request, record: Record, number: string)
    requires Plain(SeriesPrefix(r)) && Apart(r, other)
    requires SeriesPrefix(other) <= number && Carries(record, other, number)
    ensures !Matches(r, record)
  {
    LikePlain(number, SeriesPrefix(r));
    CommonPrefix(SeriesPrefix(r), SeriesPrefix(other), number);
  }

  /** Whatever a transaction sees, the number it gets begins with the prefix of the series. */
  lemma NumberHasPrefix(r: Request, visible: seq<Record>)
    ensures SeriesPrefix(r) <= NextNumber(r, visible)
  {
  }

  // ---- the invariant of one series ----

  ghost predicate LocksExclusive(s: State) {
    forall i, j :: i in s.txs && j in s.txs && i != j ==> s.txs[i].locks !! s.txs[j].locks
  }

  predicate InSeries(r: Request, numbers: seq<string>) {
    numbers == IssuedTo(r, |numbers|)
  }

  /** Every number that waits to be inserted begins with the prefix of its series. */
  predicate Prefixed(pending: map<Request, string>) {
    forall o :: o in pending ==> SeriesPrefix(o) <= pending[o]
  }

  /** A transaction sees the series in order; only the one that holds the lock has added to it. */
  ghost predicate TxOk(r: Request, hash: string -> int, table: seq<Record>, tx: Tx) {
    && Prefixed(tx.pending)
    && InSeries(r, Numbers(r, table + tx.writes))
    && (r in tx.pending ==> tx.pending[r] == Issued(r, |Numbers(r, table + tx.writes)| + 1))
    && (hash(LockText(r)) !in tx.locks ==> Numbers(r, tx.writes) == [] && r !in tx.pending)
  }

  ghost predicate Inv(r: Request, hash: string -> int, s: State) {
    && LocksExclusive(s)
    && InSeries(r, Numbers(r, s.table))
    && (forall i :: i in s.txs ==> TxOk(r, hash, s.table, s.txs[i]))
  }

  lemma {:induction false} NumbersConcat(r: Request, a: seq<Record>, b: seq<Record>)
    ensures Numbers(r, a + b) == Numbers(r, a) + Numbers(r, b)
    decreases |b|
  {
    if b == [] {
      assert a + b == a;
    } else {
      var init, last := b[..|b| - 1], b[|b| - 1];
      assert (a + b)[..|a + b| - 1] == a + init;
      NumbersConcat(r, a, init);
    }
  }

  lemma IssuedToStep(r: Request, n: nat)
    ensures IssuedTo(r, n + 1) == IssuedTo(r, n) + [Issued(r, n + 1)]
  {
  }

  /** The number given out is one of the series it was asked for. */
  lemma OwnNumberMatches(r: Request, record: Record, i: nat)
    requires Plain(SeriesPrefix(r)) && Carries(record, r, Issued(r, i))
    ensures Matches(r, record)
  {
    LikePlain(Issued(r, i), SeriesPrefix(r));
  }

  lemma ReplacedKeepsInv(r: Request, hash: string -> int, s: State, id: nat, tx: Tx)
    requires Inv(r, hash, s) && TxOk(r, hash, s.table, tx)
    requires forall j :: j in s.txs && j != id ==> tx.locks !! s.txs[j].locks
    ensures Inv(r, hash, s.(txs := s.txs[id := tx]))
  {
  }

  lemma AppendedOk(r: Request, hash: string -> int, table: seq<Record>, tx: Tx, record: Record,
                   pending: map<Request, string>)
    requires TxOk(r, hash, table, tx) && Plain(SeriesPrefix(r)) && Prefixed(pending)
    requires r in pending ==> r in tx.pending && pending[r] == tx.pending[r] && !Matches(r, record)
    requires Matches(r, record) ==> r in tx.pending && Carries(record, r, tx.pending[r])
    ensures TxOk(r, hash, table, tx.(writes := tx.writes + [record], pending := pending))
  {
    NumbersConcat(r, tx.writes, [record]);
    NumbersConcat(r, table + tx.writes, [record]);
    assert table + (tx.writes + [record]) == table + tx.writes + [record];
    assert [record][..0] == [];
    assert Numbers(r, [record]) == if Matches(r, record) then [record.fields[r.column]] else [];
    IssuedToStep(r, |Numbers(r, table + tx.writes)|);
  }

  /** Of two transactions with different locks, one has added nothing to the series. */
  lemma CommittedOk(r: Request, hash: string -> int, table: seq<Record>, tx: Tx, other: Tx)
    requires TxOk(r, hash, table, tx) && TxOk(r, hash, table, other) && tx.locks !! other.locks
    ensures TxOk(r, hash, table + tx.writes, other)
  {
    var own := Numbers(r, tx.writes);
    NumbersConcat(r, table, tx.writes);
    NumbersConcat(r, table, other.writes);
    NumbersConcat(r, table + tx.writes, other.writes);
    if hash(LockText(r)) in other.locks {
      assert own == [];
      assert Numbers(r, table) + own + Numbers(r, other.writes) == Numbers(r, table) + Numbers(r, other.writes);
    } else {
      assert Numbers(r, table) + own + [] == Numbers(r, table) + own;
    }
  }

  lemma BeginKeepsInv(r: Request, hash: string -> int, s: State, id: nat)
    requires Inv(r, hash, s) && Enabled(s, hash, Begin(id))
    ensures Inv(r, hash, Next(s, hash, Begin(id)))
  {
    assert s.table + [] == s.table;
    ReplacedKeepsInv(r, hash, s, id, Tx({}, [], map[]));
  }

  lemma LockKeepsInv(r: Request, hash: string -> int, s: State, id: nat, other: Request)
    requires Inv(r, hash, s) && Enabled(s, hash, Lock(id, other))
    ensures Inv(r, hash, Next(s, hash, Lock(id, other)))
  {
    ReplacedKeepsInv(r, hash, s, id, s.txs[id].(locks := s.txs[id].locks + {hash(LockText(other))}));
  }

  lemma ReadKeepsInv(r: Request, hash: string -> int, s: State, id: nat, other: Request)
    requires Inv(r, hash, s) && Enabled(s, hash, Read(id, other))
    ensures Inv(r, hash, Next(s, hash, Read(id, other)))
  {
    var tx := s.txs[id];
    var visible := s.table + tx.writes;
    if other == r {
      NextAfterIssued(r, visible, |Numbers(r, visible)|);
    }
    NumberHasPrefix(other, visible);
    ReplacedKeepsInv(r, hash, s, id, tx.(pending := tx.pending[other := NextNumber(other, visible)]));
  }

  lemma InsertKeepsInv(r: Request, hash: string -> int, s: State, id: nat, other: Request, record: Record)
    requires Inv(r, hash, s) && Plain(SeriesPrefix(r))
    requires Enabled(s, hash, Insert(id, other, record)) && Separate(r, Insert(id, other, record))
    ensures Inv(r, hash, Next(s, hash, Insert(id, other, record)))
  {
    var tx := s.txs[id];
    if other == r {
      OwnNumberMatches(r, record, |Numbers(r, s.table + tx.writes)| + 1);
    } else {
      ApartNeverMatches(r, other, record, tx.pending[other]);
    }
    AppendedOk(r, hash, s.table, tx, record, tx.pending - {other});
    ReplacedKeepsInv(r, hash, s, id, tx.(writes := tx.writes + [record], pending := tx.pending - {other}));
  }

  lemma WriteKeepsInv(r: Request, hash: string -> int, s: State, id: nat, record: Record)
    requires Inv(r, hash, s) && Plain(SeriesPrefix(r))
    requires id in s.txs && !Matches(r, record)
    ensures Inv(r, hash, Next(s, hash, Write(id, record)))
  {
    var tx := s.txs[id];
    AppendedOk(r, hash, s.table, tx, record, tx.pending);
    ReplacedKeepsInv(r, hash, s, id, tx.(writes := tx.writes + [record]));
  }

  lemma CommitKeepsInv(r: Request, hash: string -> int, s: State, id: nat)
    requires Inv(r, hash, s) && Enabled(s, hash, Commit(id))
    ensures Inv(r, hash, Next(s, hash, Commit(id)))
  {
    forall i | i in s.txs && i != id
      ensures TxOk(r, hash, s.table + s.txs[id].writes, s.txs[i])
    {
      CommittedOk(r, hash, s.table, s.txs[id], s.txs[i]);
    }
  }

  lemma NextKeepsInv(r: Request, hash: string -> int, s: State, a: Action)
    requires Inv(r, hash, s) && Plain(SeriesPrefix(r))
    requires Enabled(s, hash, a) && Separate(r, a)
    ensures Inv(r, hash, Next(s, hash, a))
  {
    match a
    case Begin(id) => BeginKeepsInv(r, hash, s, id);
    case Lock(id, other) => LockKeepsInv(r, hash, s, id, other);
    case Read(id, other) => ReadKeepsInv(r, hash, s, id, other);
    case Insert(id, other, record) => InsertKeepsInv(r, hash, s, id, other, record);
    case Write(id, record) => WriteKeepsInv(r, hash, s, id, record);
    case Commit(id) => CommitKeepsInv(r, hash, s, id);
    case Abort(_) =>
  }

  lemma {:induction false} ExecuteKeepsInv(r: Request, hash: string -> int, s: State, actions: seq<Action>)
    requires Inv(r, hash, s) && Plain(SeriesPrefix(r))
    requires forall i :: 0 <= i < |actions| ==> Separate(r, actions[i])
    requires Execute(s, hash, actions).Some?
    ensures Inv(r, hash, Execute(s, hash, actions).value)
    decreases |actions|
  {
    if actions != [] {
      NextKeepsInv(r, hash, s, actions[0]);
      ExecuteKeepsInv(r, hash, Next(s, hash, actions[0]), actions[1..]);
    }
  }

  /** The numbers are 1, 2, 3 and so on up to ten to the power of the padding, which then repeats. */
  predicate Gapless(r: Request, numbers: seq<string>) {
    && (forall i :: 0 <= i < |numbers| ==>
          numbers[i] == Numbered(r, if i + 1 < Pow10(Width(r)) then i + 1 else Pow10(Width(r))))
    && ((forall i, j :: 0 <= i < j < |numbers| ==> numbers[i] != numbers[j]) <==> |numbers| <= Pow10(Width(r)))
  }

  lemma SeriesGapless(r: Request, numbers: seq<string>)
    requires InSeries(r, numbers)
    ensures Gapless(r, numbers)
  {
    DistinctWhileFitting(r, |numbers|);
  }

  /**
   * A series that starts empty: however its emitters and those of series apart from it interleave, commit
   * and abort, the committed numbers are 1, 2, 3 and so on in order. They have no repetition exactly while
   * at most ten to the power of the padding were committed; beyond that the last one repeats.
   */
  lemma GaplessSeries(r: Request, hash: string -> int, initial: seq<Record>, actions: seq<Action>)
    requires Plain(SeriesPrefix(r)) && Numbers(r, initial) == []
    requires forall i :: 0 <= i < |actions| ==> Separate(r, actions[i])
    requires Execute(State(initial, map[]), hash, actions).Some?
    ensures Gapless(r, Numbers(r, Execute(State(initial, map[]), hash, actions).value.table))
  {
    ExecuteKeepsInv(r, hash, State(initial, map[]), actions);
    SeriesGapless(r, Numbers(r, Execute(State(initial, map[]), hash, actions).value.table));
  }

  /** Series without wildcards, any two of them apart. */
  ghost predicate Family(series: set<Request>) {
    && (forall r :: r in series ==> Plain(SeriesPrefix(r)))
    && (forall r, o :: r in series && o in series && r != o ==> Apart(r, o))
  }

  /** Numbers are asked for series of the family only, and other writes count for none of them. */
  predicate Within(series: set<Request>, a: Action) {
    match a
    case Insert(_, r, _) => r in series
    case Write(_, record) => forall r :: r in series ==> !Matches(r, record)
    case _ => true
  }

  /** Every series of a family that starts empty is gapless, whatever the others do meanwhile. */
  lemma AllSeriesGapless(series: set<Request>, hash: string -> int, initial: seq<Record>, actions: seq<Action>)
    requires Family(series)
    requires forall r :: r in series ==> Numbers(r, initial) == []
    requires forall i :: 0 <= i < |actions| ==> Within(series, actions[i])
    requires Execute(State(initial, map[]), hash, actions).Some?
    ensures forall r :: r in series ==>
      Gapless(r, Numbers(r, Execute(State(initial, map[]), hash, actions).value.table))
  {
    forall r | r in series
      ensures Gapless(r, Numbers(r, Execute(State(initial, map[]), hash, actions).value.table))
    {
      forall i | 0 <= i < |actions|
        ensures Separate(r, actions[i])
      {
        assert Within(series, actions[i]);
      }
      GaplessSeries(r, hash, initial, actions);
    }
  }
}
