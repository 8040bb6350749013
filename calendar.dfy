/**
 * Gregorian calendar dates and the instants the draw archive holds.
 *
 * `ParseDate` stands in for `datetime.strptime(text, "%Y-%m-%d")`. Python
 * compiles that format to the pattern
 *   `(\d\d\d\d)-(1[0-2]|0[1-9]|[1-9])-(3[01]|[12]\d|0[1-9]|[1-9]| [1-9])`,
 * requires the match to cover the whole text, and then builds a `datetime`,
 * which refuses year 0 and a day past the end of its month. So `2024-1-5`
 * and `2024-01- 5` are accepted alongside `2024-01-05`.
 */
module Calendar {
  import opened Wrappers
  import opened Text

  datatype Date = Date(year: int, month: int, day: int)

  predicate IsLeapYear(y: int) {
    y % 4 == 0 && (y % 100 != 0 || y % 400 == 0)
  }

  function DaysInMonth(y: int, m: int): (n: int)
    requires 1 <= m <= 12
    ensures 28 <= n <= 31
    ensures n == 29 <==> m == 2 && IsLeapYear(y)
  {
    if m == 2 then (if IsLeapYear(y) then 29 else 28)
    else if m == 4 || m == 6 || m == 9 || m == 11 then 30
    else 31
  }

  /** A date Python's `datetime` can represent (years 1 to 9999). */
  predicate ValidDate(d: Date) {
    && 1 <= d.year <= 9999
    && 1 <= d.month <= 12
    && 1 <= d.day <= DaysInMonth(d.year, d.month)
  }

  /** The `%m` directive: `1[0-2]|0[1-9]|[1-9]`. */
  function MonthField(t: string): (r: Option<int>)
    ensures r.Some? ==> 1 <= r.value <= 12
  {
    if |t| == 1 && '1' <= t[0] <= '9' then Some(DigitValue(t[0]))
    else if |t| == 2 && t[0] == '1' && '0' <= t[1] <= '2' then Some(10 + DigitValue(t[1]))
    else if |t| == 2 && t[0] == '0' && '1' <= t[1] <= '9' then Some(DigitValue(t[1]))
    else None
  }

  /** The `%d` directive: `3[01]|[12]\d|0[1-9]|[1-9]| [1-9]`. */
  function DayField(t: string): (r: Option<int>)
    ensures r.Some? ==> 1 <= r.value <= 31
  {
    if |t| == 1 && '1' <= t[0] <= '9' then Some(DigitValue(t[0]))
    else if |t| == 2 && t[0] == '3' && '0' <= t[1] <= '1' then Some(30 + DigitValue(t[1]))
    else if |t| == 2 && '1' <= t[0] <= '2' && IsDigit(t[1]) then Some(10 * DigitValue(t[0]) + DigitValue(t[1]))
    else if |t| == 2 && (t[0] == '0' || t[0] == ' ') && '1' <= t[1] <= '9' then Some(DigitValue(t[1]))
    else None
  }

  /** The `%Y` directive: exactly four digits. */
  function YearField(t: string): (r: Option<int>)
    ensures r.Some? ==> 0 <= r.value <= 9999
  {
    if |t| == 4 && AllDigits(t) then
      Some(1000 * DigitValue(t[0]) + 100 * DigitValue(t[1]) + 10 * DigitValue(t[2]) + DigitValue(t[3]))
    else None
  }

  /** A date from its three fields, or `None` where `datetime` raises `ValueError`. */
  function MakeDate(y: Option<int>, m: Option<int>, d: Option<int>): (r: Option<Date>)
    ensures r.Some? ==> ValidDate(r.value)
    ensures r.Some? <==> y.Some? && m.Some? && d.Some? && ValidDate(Date(y.value, m.value, d.value))
  {
    if y.Some? && m.Some? && d.Some? && ValidDate(Date(y.value, m.value, d.value))
    then Some(Date(y.value, m.value, d.value))
    else None
  }

  /**
   * `datetime.strptime(text, "%Y-%m-%d")`, as a date: four year digits and a
   * dash, a month field up to the next dash, and a day field that must end
   * the text. A month field never holds a dash, so the second dash fixes it.
   */
  function ParseDate(text: string): (r: Option<Date>)
    ensures r.Some? ==> ValidDate(r.value)
    ensures r.Some? ==> 8 <= |text| <= 10 && text[4] == '-' && YearField(text[..4]) == Some(r.value.year)
  {
    if |text| < 7 || text[4] != '-' then None
    else
      var rest := text[5..];
      if rest[1] == '-' then MakeDate(YearField(text[..4]), MonthField(rest[..1]), DayField(rest[2..]))
      else if |rest| > 2 && rest[2] == '-' then MakeDate(YearField(text[..4]), MonthField(rest[..2]), DayField(rest[3..]))
      else None
  }

  /** Two digits of `n`, zero-padded. */
  function Pad2(n: int): string
    requires 0 <= n < 100
  {
    [DigitChar(n / 10), DigitChar(n % 10)]
  }

  /** The canonical zero-padded `YYYY-MM-DD` spelling of a date, as the results page and the CSV file write dates. */
  function FormatDate(d: Date): (s: string)
    requires ValidDate(d)
    ensures |s| == 10 && ':' !in s
  {
    var s := Pad2(d.year / 100) + Pad2(d.year % 100) + "-" + Pad2(d.month) + "-" + Pad2(d.day);
    assert forall i :: 0 <= i < |s| ==> s[i] == '-' || IsDigit(s[i]);
    s
  }

  lemma YearFieldPad(y: int)
    requires 0 <= y <= 9999
    ensures YearField(Pad2(y / 100) + Pad2(y % 100)) == Some(y)
  {
    var t := Pad2(y / 100) + Pad2(y % 100);
    assert DigitValue(t[0]) == y / 100 / 10 && DigitValue(t[1]) == y / 100 % 10;
    assert DigitValue(t[2]) == y % 100 / 10 && DigitValue(t[3]) == y % 100 % 10;
  }

  /** A zero-padded month field is read as its value exactly when that is a month. */
  lemma MonthFieldPad(m: int)
    requires 0 <= m < 100
    ensures MonthField(Pad2(m)) == if 1 <= m <= 12 then Some(m) else None
  {
    var t := Pad2(m);
    assert DigitValue(t[0]) == m / 10 && DigitValue(t[1]) == m % 10;
  }

  /** A zero-padded day field is read as its value exactly when that is 1..31. */
  lemma DayFieldPad(d: int)
    requires 0 <= d < 100
    ensures DayField(Pad2(d)) == if 1 <= d <= 31 then Some(d) else None
  {
    var t := Pad2(d);
    assert DigitValue(t[0]) == d / 10 && DigitValue(t[1]) == d % 10;
  }

  /**
   * Any zero-padded `YYYY-MM-DD` text is read as the date it spells when
   * that is a date of the calendar, and refused otherwise (month 13,
   * February 30, the year 0).
   */
  lemma CanonicalParse(y: int, m: int, d: int)
    requires 0 <= y <= 9999 && 0 <= m < 100 && 0 <= d < 100
    ensures ParseDate(Pad2(y / 100) + Pad2(y % 100) + "-" + Pad2(m) + "-" + Pad2(d))
      == if ValidDate(Date(y, m, d)) then Some(Date(y, m, d)) else None
  {
    var yt := Pad2(y / 100) + Pad2(y % 100);
    var s := yt + "-" + Pad2(m) + "-" + Pad2(d);
    assert s[..4] == yt && s[4] == '-';
    var rest := s[5..];
    assert rest == Pad2(m) + "-" + Pad2(d);
    assert rest[1] != '-' && rest[2] == '-';
    assert rest[..2] == Pad2(m) && rest[3..] == Pad2(d);
    YearFieldPad(y);
    MonthFieldPad(m);
    DayFieldPad(d);
  }

  /** An accepted year field is the zero-padded spelling of its value. */
  lemma YearFieldText(t: string)
    requires YearField(t).Some?
    ensures Pad2(YearField(t).value / 100) + Pad2(YearField(t).value % 100) == t
  {
    var y := YearField(t).value;
    var p := Pad2(y / 100) + Pad2(y % 100);
    assert y / 100 == 10 * DigitValue(t[0]) + DigitValue(t[1]);
    assert y % 100 == 10 * DigitValue(t[2]) + DigitValue(t[3]);
    assert p[0] == t[0] && p[1] == t[1] && p[2] == t[2] && p[3] == t[3];
  }

  /** An accepted two-character month field is the zero-padded spelling of its value. */
  lemma MonthFieldText(t: string)
    requires |t| == 2 && MonthField(t).Some?
    ensures Pad2(MonthField(t).value) == t
  {
  }

  /** An accepted two-character day field without a space is the zero-padded spelling of its value. */
  lemma DayFieldText(t: string)
    requires |t| == 2 && t[0] != ' ' && DayField(t).Some?
    ensures Pad2(DayField(t).value) == t
  {
  }

  /**
   * A ten-character text without spaces that parses is the canonical text
   * of the date it parses to: with `ParseFormatDate`, parsing and the
   * canonical spelling are inverse on such texts.
   */
  lemma FormatParseDate(text: string)
    requires |text| == 10 && ' ' !in text && ParseDate(text).Some?
    ensures FormatDate(ParseDate(text).value) == text
  {
    var d := ParseDate(text).value;
    var rest := text[5..];
    assert rest[2..] == text[7..];
    assert rest[1] != '-';
    assert rest[2] == '-';
    var mt, dt := rest[..2], rest[3..];
    assert dt[0] == text[8];
    YearFieldText(text[..4]);
    MonthFieldText(mt);
    DayFieldText(dt);
    assert text == text[..4] + "-" + mt + "-" + dt;
  }

  /** Parsing the canonical text of a date gives the date back. */
  lemma ParseFormatDate(d: Date)
    requires ValidDate(d)
    ensures ParseDate(FormatDate(d)) == Some(d)
  {
    var s := FormatDate(d);
    var yt := Pad2(d.year / 100) + Pad2(d.year % 100);
    assert s == yt + "-" + Pad2(d.month) + "-" + Pad2(d.day);
    assert s[..4] == yt;
    var rest := s[5..];
    assert rest == Pad2(d.month) + "-" + Pad2(d.day);
    assert rest[..2] == Pad2(d.month) && rest[3..] == Pad2(d.day);
    YearFieldPad(d.year);
    MonthFieldPad(d.month);
    DayFieldPad(d.day);
  }

  /** Strict chronological order of dates (lexicographic on year, month, day). */
  predicate DateBefore(a: Date, b: Date) {
    || a.year < b.year
    || (a.year == b.year && a.month < b.month)
    || (a.year == b.year && a.month == b.month && a.day < b.day)
  }

  /** The calendar day after `d`. */
  function NextDay(d: Date): (n: Date)
    requires ValidDate(d)
    ensures DateBefore(d, n)
    ensures d.year < 9999 || d.month < 12 || d.day < 31 ==> ValidDate(n)
  {
    if d.day < DaysInMonth(d.year, d.month) then Date(d.year, d.month, d.day + 1)
    else if d.month < 12 then Date(d.year, d.month + 1, 1)
    else Date(d.year + 1, 1, 1)
  }

  /** No valid date lies strictly between a date and the day after it. */
  lemma NextDayImmediate(d: Date, e: Date)
    requires ValidDate(d) && ValidDate(e)
    ensures DateBefore(d, e) ==> e == NextDay(d) || DateBefore(NextDay(d), e)
  {
  }

  /** Microseconds in a day: `datetime` resolves time of day to the microsecond. */
  const MicrosPerDay: int := 86_400_000_000

  /**
   * A point in time as the archive stores it: a calendar date and a time of
   * day in microseconds since midnight.
   */
  datatype Instant = Instant(date: Date, micros: int)

  /** `datetime(y, m, d)`: midnight of a day, as `strptime` returns it. */
  function Midnight(d: Date): (t: Instant)
    ensures t.date == d && t.micros == 0
  {
    Instant(d, 0)
  }

  /** `t1 <= t2` on timestamps. */
  predicate InstantLe(a: Instant, b: Instant) {
    DateBefore(a.date, b.date) || (a.date == b.date && a.micros <= b.micros)
  }

  /** `InstantLe` is a total order. */
  lemma InstantLeTotalOrder(a: Instant, b: Instant, c: Instant)
    ensures InstantLe(a, a)
    ensures InstantLe(a, b) || InstantLe(b, a)
    ensures InstantLe(a, b) && InstantLe(b, a) ==> a == b
    ensures InstantLe(a, b) && InstantLe(b, c) ==> InstantLe(a, c)
  {
  }
}
