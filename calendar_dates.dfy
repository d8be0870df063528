/** Civil dates and instants as the calendar server uses them: a date is
    parsed with the layout "2006-01-02"; an instant is a number of seconds
    since 1970-01-01 00:00 UTC; a day starts at local midnight in a zone
    with a fixed offset east of UTC; adding years, months or days
    normalises the date the way Go's time.Date does. */
module CalendarDates {
  import opened Common
  import opened GoStrings

  const SecondsPerDay: int := 86400

  /** A civil date. Month and day may be out of range, as in the argument
      of Go's time.Date; Days normalises them. */
  datatype Civil = Civil(year: int, month: int, day: int)

  predicate IsLeap(y: int) {
    y % 4 == 0 && (y % 100 != 0 || y % 400 == 0)
  }

  function DaysIn(y: int, m: int): (n: int)
    requires 1 <= m <= 12
    ensures 28 <= n <= 31
  {
    if m == 2 then (if IsLeap(y) then 29 else 28)
    else if m == 4 || m == 6 || m == 9 || m == 11 then 30
    else 31
  }

  /** A date the layout can denote: a real day of a real month. */
  predicate ValidDate(c: Civil) {
    1 <= c.month <= 12 && 1 <= c.day <= DaysIn(c.year, c.month)
  }

  /** Days from 0000-03-01 to March 1 of year `y`, by the era decomposition
      of the proleptic Gregorian calendar (an era is 400 years). */
  function MarchStart(y: int): int {
    var era := y / 400;
    var yoe := y - era * 400;
    era * 146097 + yoe * 365 + yoe / 4 - yoe / 100
  }

  /** Days from 1970-01-01 to the first day of month `m` of year `y`:
      years are counted from March, so January and February belong to the
      year before. */
  function MonthStart(y: int, m: int): int
    requires 1 <= m <= 12
  {
    var y' := if m <= 2 then y - 1 else y;
    var mp := if m > 2 then m - 3 else m + 9;
    MarchStart(y') + (153 * mp + 2) / 5 - 719468
  }

  /** Days from 1970-01-01 to a date: the month is first brought into
      1..12 by carrying whole years, then the day counts on linearly. */
  function Days(c: Civil): int {
    var m0 := c.month - 1;
    MonthStart(c.year + m0 / 12, m0 % 12 + 1) + c.day - 1
  }

  /** A point in time: local midnight of `date` in a zone `offset` seconds
      east of UTC. Every time the server handles is of this form. */
  datatype Time = Time(date: Civil, offset: int)

  /** Seconds since 1970-01-01 00:00 UTC. */
  function Instant(t: Time): int {
    Days(t.date) * SecondsPerDay - t.offset
  }

  /** time.Time.AddDate on a local midnight. */
  function AddDate(t: Time, years: int, months: int, days: int): Time {
    Time(Civil(t.date.year + years, t.date.month + months, t.date.day + days), t.offset)
  }

  /** The zero time.Time: 0001-01-01 00:00 UTC. */
  const ZeroTime: Time := Time(Civil(1, 1, 1), 0)

  // ---------------------------------------------------------------------
  // The calendar the day count follows
  // ---------------------------------------------------------------------

  lemma Epoch()
    ensures Days(Civil(1970, 1, 1)) == 0
    ensures Instant(ZeroTime) == -62135596800
  {
    assert 0 / 12 == 0 && 0 % 12 == 0;
    assert 1969 / 400 == 4 && 0 / 400 == 0;
    assert (153 * 10 + 2) / 5 == 306;
    assert 369 / 4 == 92 && 369 / 100 == 3;
    assert MonthStart(1970, 1) == 0;
    assert MonthStart(1, 1) == -719162;
  }

  /** The next day is one day later. */
  lemma NextDay(c: Civil)
    ensures Days(Civil(c.year, c.month, c.day + 1)) == Days(c) + 1
  {
  }

  /** Thirteen months on is the same month of the next year. */
  lemma MonthCarry(y: int, m: int, d: int)
    ensures Days(Civil(y, m + 12, d)) == Days(Civil(y + 1, m, d))
  {
    var m0 := m - 1;
    assert (m0 + 12) / 12 == m0 / 12 + 1;
    assert (m0 + 12) % 12 == m0 % 12;
  }

  /** Every month other than February has a fixed length. */
  lemma MonthLengthNotFebruary(y: int, m: int)
    requires 1 <= m <= 12 && m != 2
    ensures (if m == 12 then MonthStart(y + 1, 1) else MonthStart(y, m + 1))
      == MonthStart(y, m) + DaysIn(y, m)
  {
  }

  /** February: 28 days, 29 in a leap year. */
  lemma MonthLengthFebruary(y: int)
    ensures MonthStart(y, 3) == MonthStart(y, 2) + DaysIn(y, 2)
  {
    YearLength(y);
  }

  /** From March 1 of the year before to March 1 of `y`: 366 days when
      `y` is a leap year (its February has 29 days), 365 otherwise. */
  lemma YearLength(y: int)
    ensures MarchStart(y) == MarchStart(y - 1) + (if IsLeap(y) then 366 else 365)
  {
    var e := (y - 1) / 400;
    var t := (y - 1) - e * 400;
    assert MarchStart(y - 1) == e * 146097 + t * 365 + t / 4 - t / 100;
    if t == 399 {
      EuclidDiv400(y, e + 1, 0);
      assert MarchStart(y) == (e + 1) * 146097;
      LeapEraStart(y);
    } else {
      EuclidDiv400(y, e, t + 1);
      assert MarchStart(y) == e * 146097 + (t + 1) * 365 + (t + 1) / 4 - (t + 1) / 100;
      LeapInEra(y, e, t + 1);
    }
  }

  lemma EuclidDiv400(y: int, q: int, r: int)
    requires y == q * 400 + r && 0 <= r < 400
    ensures y / 400 == q && y - (y / 400) * 400 == r && y % 400 == r
  {
  }

  /** The first year of an era is a leap year. */
  lemma LeapEraStart(y: int)
    requires y % 400 == 0
    ensures IsLeap(y)
  {
    var q := y / 400;
    assert y == 4 * (100 * q);
  }

  /** Within an era, a year after the first is a leap year exactly when
      the day count of its position in the era gains a day. */
  lemma LeapInEra(y: int, e: int, u: int)
    requires y == e * 400 + u && 1 <= u < 400
    ensures (u / 4 - (u - 1) / 4) - (u / 100 - (u - 1) / 100) == (if IsLeap(y) then 1 else 0)
  {
    ModShift(y, e, u);
    DivStep4(u);
    DivStep100(u);
  }

  lemma ModShift(y: int, e: int, u: int)
    requires y == e * 400 + u && 1 <= u < 400
    ensures y % 4 == u % 4 && y % 100 == u % 100 && y % 400 == u
  {
    assert y == 4 * (e * 100) + u;
    assert y == 100 * (e * 4) + u;
  }

  lemma DivStep4(u: int)
    ensures u / 4 - (u - 1) / 4 == (if u % 4 == 0 then 1 else 0)
  {
  }

  lemma DivStep100(u: int)
    ensures u / 100 - (u - 1) / 100 == (if u % 100 == 0 then 1 else 0)
  {
  }

  /** A month after any date of month `m` is `DaysIn(y, m)` days later,
      also when the day does not exist in the next month (Go then rolls
      over into the month after). */
  /** The day number of a date within its month. */
  lemma DaysInMonth(c: Civil)
    requires 1 <= c.month <= 12
    ensures Days(c) == MonthStart(c.year, c.month) + c.day - 1
  {
    EuclidDiv12(c.month - 1, 0, c.month - 1);
  }

  /** Month 13 of a year is January of the next one. */
  lemma DaysNextMonth(c: Civil)
    requires 1 <= c.month <= 12
    ensures Days(Civil(c.year, c.month + 1, c.day))
      == (if c.month == 12 then MonthStart(c.year + 1, 1) else MonthStart(c.year, c.month + 1)) + c.day - 1
  {
    if c.month == 12 {
      EuclidDiv12(c.month, 1, 0);
    } else {
      EuclidDiv12(c.month, 0, c.month);
    }
  }

  lemma EuclidDiv12(n: int, q: int, r: int)
    requires 0 <= r < 12 && n == q * 12 + r
    ensures n / 12 == q && n % 12 == r
  {
  }

  lemma MonthLater(c: Civil)
    requires 1 <= c.month <= 12
    ensures Days(Civil(c.year, c.month + 1, c.day)) == Days(c) + DaysIn(c.year, c.month)
  {
    DaysInMonth(c);
    DaysNextMonth(c);
    if c.month == 2 {
      MonthLengthFebruary(c.year);
    } else {
      MonthLengthNotFebruary(c.year, c.month);
    }
  }

  // ---------------------------------------------------------------------
  // The layout "2006-01-02"
  // ---------------------------------------------------------------------

  function Num2(a: char, b: char): nat
    requires IsDigit(a) && IsDigit(b)
  {
    DigitValue(a) * 10 + DigitValue(b)
  }

  function Num4(s: string): nat
    requires |s| == 4 && AllDigits(s)
  {
    Num2(s[0], s[1]) * 100 + Num2(s[2], s[3])
  }

  /** time.Parse with the layout "2006-01-02": four digits of year, two of
      month, two of day, separated by '-', nothing after; the month must
      be 1..12 and the day must exist in that month. */
  function ParseDate(s: string): (r: Option<Civil>)
    ensures r.Some? ==> ValidDate(r.value) && 0 <= r.value.year <= 9999
  {
    if |s| == 10 && s[4] == '-' && s[7] == '-' && AllDigits(s[..4])
       && IsDigit(s[5]) && IsDigit(s[6]) && IsDigit(s[8]) && IsDigit(s[9])
    then
      var y := Num4(s[..4]);
      var m := Num2(s[5], s[6]);
      var d := Num2(s[8], s[9]);
      if 1 <= m <= 12 && 1 <= d <= DaysIn(y, m) then Some(Civil(y, m, d)) else None
    else None
  }

  function Pad2(n: nat): (s: string)
    requires n < 100
    ensures |s| == 2 && IsDigit(s[0]) && IsDigit(s[1]) && Num2(s[0], s[1]) == n
  {
    [DigitChar(n / 10), DigitChar(n % 10)]
  }

  /** Time.Format with the layout "2006-01-02" for years 0..9999. */
  function FormatDate(c: Civil): (s: string)
    requires 0 <= c.year <= 9999 && 0 <= c.month < 100 && 0 <= c.day < 100
    ensures |s| == 10
  {
    Pad2(c.year / 100) + Pad2(c.year % 100) + "-" + Pad2(c.month) + "-" + Pad2(c.day)
  }

  /** Parsing a formatted date gives the date back. */
  lemma ParseFormat(c: Civil)
    requires ValidDate(c) && 0 <= c.year <= 9999
    ensures ParseDate(FormatDate(c)) == Some(c)
  {
    var s := FormatDate(c);
    var hi := Pad2(c.year / 100);
    var lo := Pad2(c.year % 100);
    assert s[..4] == hi + lo;
    assert Num4(s[..4]) == (c.year / 100) * 100 + c.year % 100;
  }

  /** A string the layout accepts is the formatting of what it parses to. */
  lemma FormatParse(s: string)
    requires ParseDate(s).Some?
    ensures FormatDate(ParseDate(s).value) == s
  {
    var c := ParseDate(s).value;
    var f := FormatDate(c);
    var hi := s[..4];
    assert hi[0] == s[0] && hi[1] == s[1] && hi[2] == s[2] && hi[3] == s[3];
    var a := Num2(s[0], s[1]);
    var b := Num2(s[2], s[3]);
    assert c.year == a * 100 + b && b < 100;
    assert c.year / 100 == a && c.year % 100 == b;
    Pad2Num2(s[0], s[1]);
    Pad2Num2(s[2], s[3]);
    Pad2Num2(s[5], s[6]);
    Pad2Num2(s[8], s[9]);
    assert f == s[..2] + s[2..4] + "-" + s[5..7] + "-" + s[8..10];
    assert s == s[..2] + s[2..4] + [s[4]] + s[5..7] + [s[7]] + s[8..10];
  }

  /** Pad2 is the two-digit spelling: the spelling of a two-digit value is
      the pair of digits itself. */
  lemma Pad2Num2(a: char, b: char)
    requires IsDigit(a) && IsDigit(b)
    ensures Pad2(Num2(a, b)) == [a, b]
  {
  }

  lemma ParseExamples()
    ensures ParseDate("2019-09-09") == Some(Civil(2019, 9, 9))
    ensures ParseDate("2020-02-29") == Some(Civil(2020, 2, 29))
    ensures ParseDate("2019-02-29") == None
    ensures ParseDate("2019-13-01") == None
    ensures ParseDate("2019-9-09") == None
  {
    assert "2019-09-09"[..4] == "2019";
    assert "2020-02-29"[..4] == "2020";
    assert "2019-02-29"[..4] == "2019";
    assert "2019-13-01"[..4] == "2019";
  }
}
