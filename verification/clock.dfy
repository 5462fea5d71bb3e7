/**
 * Calendar dates and wall-clock times as the attendance log writes them:
 * a date as `YYYY-MM-DD` (what `str(date)` produces for a `datetime.date`)
 * and a time as `HH:MM:SS` (the `%H:%M:%S` format). Each format has a parser
 * that inverts it, so two different dates never share a date field.
 */
module Clock {
  import opened Optional

  datatype Date = Date(year: int, month: int, day: int)
  datatype Time = Time(hour: int, minute: int, second: int)

  predicate IsLeapYear(y: int) {
    y % 4 == 0 && (y % 100 != 0 || y % 400 == 0)
  }

  function DaysInMonth(y: int, m: int): (n: int)
    requires 1 <= m <= 12
    ensures 28 <= n <= 31
  {
    if m == 2 then (if IsLeapYear(y) then 29 else 28)
    else if m == 4 || m == 6 || m == 9 || m == 11 then 30
    else 31
  }

  /** The dates a `datetime.date` can hold (years 1 to 9999). */
  predicate ValidDate(d: Date) {
    1 <= d.year <= 9999 && 1 <= d.month <= 12 && 1 <= d.day <= DaysInMonth(d.year, d.month)
  }

  predicate ValidTime(t: Time) {
    0 <= t.hour < 24 && 0 <= t.minute < 60 && 0 <= t.second < 60
  }

  predicate IsDigit(c: char) {
    '0' <= c <= '9'
  }

  function Digit(n: int): (c: char)
    requires 0 <= n < 10
    ensures IsDigit(c) && c as int - '0' as int == n
  {
    ('0' as int + n) as char
  }

  /** The number a string of decimal digits denotes; None if any character is not a digit. */
  function DigitsValue(s: string): (r: Option<nat>)
    ensures r.Some? <==> forall i | 0 <= i < |s| :: IsDigit(s[i])
  {
    if s == [] then Some(0)
    else
      var last := s[|s| - 1];
      match DigitsValue(s[..|s| - 1])
      case None => None
      case Some(v) =>
        if IsDigit(last) then Some(10 * v + (last as int - '0' as int)) else None
  }

  /** Two-digit zero-padded decimal (`%02d`). */
  function Pad2(n: int): (s: string)
    requires 0 <= n < 100
    ensures |s| == 2
  {
    [Digit(n / 10), Digit(n % 10)]
  }

  /** Four-digit zero-padded decimal (`%04d`). */
  function Pad4(n: int): (s: string)
    requires 0 <= n < 10000
    ensures |s| == 4
  {
    Pad2(n / 100) + Pad2(n % 100)
  }

  /** Appending one character extends the number by that digit. */
  lemma DigitsValueSnoc(x: string, c: char)
    requires DigitsValue(x).Some? && IsDigit(c)
    ensures DigitsValue(x + [c]) == Some(10 * DigitsValue(x).value + (c as int - '0' as int))
  {
    assert (x + [c])[..|x|] == x;
  }

  lemma Pad2Value(n: int)
    requires 0 <= n < 100
    ensures DigitsValue(Pad2(n)) == Some(n)
  {
    var s := Pad2(n);
    assert [s[0]] == [] + [s[0]];
    DigitsValueSnoc([], s[0]);
    assert s == [s[0]] + [s[1]];
    DigitsValueSnoc([s[0]], s[1]);
  }

  lemma Pad4Value(n: int)
    requires 0 <= n < 10000
    ensures DigitsValue(Pad4(n)) == Some(n)
  {
    var hi, lo := Pad2(n / 100), Pad2(n % 100);
    Pad2Value(n / 100);
    DigitsValueSnoc(hi, lo[0]);
    assert hi + lo == (hi + [lo[0]]) + [lo[1]];
    DigitsValueSnoc(hi + [lo[0]], lo[1]);
  }

  /** `HH:MM:SS`, the time field of an attendance row. */
  function FormatTime(t: Time): (s: string)
    requires ValidTime(t)
    ensures |s| == 8 && s[2] == ':' && s[5] == ':'
  {
    Pad2(t.hour) + ":" + Pad2(t.minute) + ":" + Pad2(t.second)
  }

  function ParseTime(s: string): (r: Option<Time>)
    ensures r.Some? ==> ValidTime(r.value)
  {
    if |s| == 8 && s[2] == ':' && s[5] == ':' then
      match (DigitsValue(s[0..2]), DigitsValue(s[3..5]), DigitsValue(s[6..8]))
      case (Some(h), Some(m), Some(x)) =>
        if ValidTime(Time(h, m, x)) then Some(Time(h, m, x)) else None
      case _ => None
    else None
  }

  /** `YYYY-MM-DD`, the date field of an attendance row. */
  function FormatDate(d: Date): (s: string)
    requires ValidDate(d)
    ensures |s| == 10 && s[4] == '-' && s[7] == '-'
  {
    Pad4(d.year) + "-" + Pad2(d.month) + "-" + Pad2(d.day)
  }

  function ParseDate(s: string): (r: Option<Date>)
    ensures r.Some? ==> ValidDate(r.value)
  {
    if |s| == 10 && s[4] == '-' && s[7] == '-' then
      match (DigitsValue(s[0..4]), DigitsValue(s[5..7]), DigitsValue(s[8..10]))
      case (Some(y), Some(m), Some(x)) =>
        if ValidDate(Date(y, m, x)) then Some(Date(y, m, x)) else None
      case _ => None
    else None
  }

  lemma TimeRoundTrip(t: Time)
    requires ValidTime(t)
    ensures ParseTime(FormatTime(t)) == Some(t)
  {
    var s := FormatTime(t);
    assert s[0..2] == Pad2(t.hour);
    assert s[3..5] == Pad2(t.minute);
    assert s[6..8] == Pad2(t.second);
    Pad2Value(t.hour);
    Pad2Value(t.minute);
    Pad2Value(t.second);
  }

  lemma DateRoundTrip(d: Date)
    requires ValidDate(d)
    ensures ParseDate(FormatDate(d)) == Some(d)
  {
    var s := FormatDate(d);
    assert s[0..4] == Pad4(d.year);
    assert s[5..7] == Pad2(d.month);
    assert s[8..10] == Pad2(d.day);
    Pad4Value(d.year);
    Pad2Value(d.month);
    Pad2Value(d.day);
  }

  /** Different dates are written differently, so the date field identifies the day. */
  lemma FormatDateInjective(d1: Date, d2: Date)
    requires ValidDate(d1) && ValidDate(d2)
    requires FormatDate(d1) == FormatDate(d2)
    ensures d1 == d2
  {
    DateRoundTrip(d1);
    DateRoundTrip(d2);
  }
}
