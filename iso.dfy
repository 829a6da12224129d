/** The format `z.iso.datetime()` accepts with its default options: a
    calendar date, `T`, hours and minutes, optional seconds with an optional
    fraction of any length, and the UTC designator `Z` (no offset, no local
    form). */
module IsoDateTime {
  import opened BigIntText

  /** The two-digit number at s[i], s[i+1]. */
  function TwoDigits(s: string, i: nat): nat
    requires i + 2 <= |s| && IsDigit(s[i]) && IsDigit(s[i + 1])
  {
    10 * DigitValue(s[i]) + DigitValue(s[i + 1])
  }

  /** Gregorian leap years: divisible by 4, and centuries only when divisible by 400. */
  predicate IsLeapYear(year: nat)
  {
    year % 4 == 0 && (year % 100 != 0 || year % 400 == 0)
  }

  function DaysInMonth(year: nat, month: nat): nat
    requires 1 <= month <= 12
  {
    if month == 2 then (if IsLeapYear(year) then 29 else 28)
    else if month == 4 || month == 6 || month == 9 || month == 11 then 30
    else 31
  }

  /** YYYY-MM-DD naming a day that exists. */
  predicate IsDate(s: string)
  {
    |s| == 10 && AllDigits(s[..4]) && s[4] == '-' && IsDigit(s[5]) && IsDigit(s[6]) &&
    s[7] == '-' && IsDigit(s[8]) && IsDigit(s[9]) &&
    var year, month, day := DecimalValue(s[..4]), TwoDigits(s, 5), TwoDigits(s, 8);
    1 <= month <= 12 && 1 <= day <= DaysInMonth(year, month)
  }

  /** HH:MM */
  predicate IsHourMinute(s: string)
  {
    |s| == 5 && IsDigit(s[0]) && IsDigit(s[1]) && TwoDigits(s, 0) <= 23 && s[2] == ':' &&
    IsDigit(s[3]) && IsDigit(s[4]) && TwoDigits(s, 3) <= 59
  }

  /** :SS */
  predicate IsSeconds(s: string)
  {
    |s| == 3 && s[0] == ':' && IsDigit(s[1]) && IsDigit(s[2]) && TwoDigits(s, 1) <= 59
  }

  /** .F with at least one digit */
  predicate IsFraction(s: string)
  {
    |s| >= 2 && s[0] == '.' && AllDigits(s[1..])
  }

  /** HH:MM, HH:MM:SS or HH:MM:SS.F */
  predicate IsTime(s: string)
  {
    |s| >= 5 && IsHourMinute(s[..5]) &&
    (|s| == 5 || (|s| >= 8 && IsSeconds(s[5..8]) && (|s| == 8 || IsFraction(s[8..]))))
  }

  predicate IsDateTime(s: string)
  {
    |s| >= 17 && IsDate(s[..10]) && s[10] == 'T' && s[|s| - 1] == 'Z' && IsTime(s[11..|s| - 1])
  }

  /** A time ends in a digit, so it never carries the UTC designator itself. */
  lemma TimeEndsInDigit(t: string)
    requires IsTime(t)
    ensures IsDigit(t[|t| - 1])
  {
    if |t| == 5 {
      assert t[4] == t[..5][4];
    } else if |t| == 8 {
      assert t[7] == t[5..8][2];
    } else {
      assert t[|t| - 1] == t[8..][1..][|t| - 10];
    }
  }

  /** The default options refuse a numeric offset (`offset: false`): a
      timestamp ending in `+HH:MM` or `-HH:MM` is refused, whatever precedes it. */
  lemma OffsetRefused(s: string, offset: string)
    requires |offset| == 6 && (offset[0] == '+' || offset[0] == '-') && IsHourMinute(offset[1..])
    ensures !IsDateTime(s + offset)
  {
    var x := s + offset;
    assert x[|x| - 1] == offset[1..][4];
  }

  /** The default options refuse the local form without a designator
      (`local: false`): a date and a time alone are refused. */
  lemma LocalRefused(d: string, t: string)
    requires IsDate(d) && IsTime(t)
    ensures !IsDateTime(d + "T" + t)
  {
    var x := d + "T" + t;
    TimeEndsInDigit(t);
    assert x[|x| - 1] == t[|t| - 1];
  }

  /** n as exactly `width` decimal digits, zero-padded. */
  function Padded(n: nat, width: nat): (s: string)
    requires n < Power10(width)
    ensures |s| == width && AllDigits(s) && DecimalValue(s) == n
    decreases width
  {
    if width == 0 then []
    else
      var prefix := Padded(n / 10, width - 1);
      var s := prefix + [DigitChar(n % 10)];
      assert s[..|s| - 1] == prefix;
      s
  }

  function Power10(k: nat): nat
  {
    if k == 0 then 1 else 10 * Power10(k - 1)
  }

  /** What `Date.prototype.toISOString` prints for an instant in years
      0 to 9999: YYYY-MM-DDTHH:MM:SS.mmmZ. */
  function ToIsoString(year: nat, month: nat, day: nat, hour: nat, minute: nat, second: nat, millis: nat): string
    requires year <= 9999 && 1 <= month <= 12 && day <= 31 && hour <= 23 && minute <= 59 && second <= 59 && millis <= 999
  {
    DateText(year, month, day) + "T" + TimeText(hour, minute, second, millis) + "Z"
  }

  function DateText(year: nat, month: nat, day: nat): string
    requires year <= 9999 && month <= 99 && day <= 99
  {
    Padded(year, 4) + "-" + Padded(month, 2) + "-" + Padded(day, 2)
  }

  function TimeText(hour: nat, minute: nat, second: nat, millis: nat): string
    requires hour <= 99 && minute <= 99 && second <= 99 && millis <= 999
  {
    Padded(hour, 2) + ":" + Padded(minute, 2) + ":" + Padded(second, 2) + "." + Padded(millis, 3)
  }

  /** Two digits denote the two-digit number they spell. */
  lemma TwoDigitsOf(p: string)
    requires |p| == 2 && AllDigits(p)
    ensures IsDigit(p[0]) && IsDigit(p[1]) && TwoDigits(p, 0) == DecimalValue(p)
  {
    assert DecimalValue(p[..1]) == DigitValue(p[0]) by { assert p[..1][..0] == []; }
  }

  /** A year, a month and a day in digits, joined by dashes, form a date
      when they name a day that exists. */
  lemma DateOfParts(y: string, mo: string, d: string)
    requires |y| == 4 && AllDigits(y) && |mo| == 2 && AllDigits(mo) && |d| == 2 && AllDigits(d)
    requires 1 <= DecimalValue(mo) <= 12 && 1 <= DecimalValue(d) <= DaysInMonth(DecimalValue(y), DecimalValue(mo))
    ensures IsDate(y + "-" + mo + "-" + d)
  {
    var date := y + "-" + mo + "-" + d;
    TwoDigitsOf(mo);
    TwoDigitsOf(d);
    assert date[..4] == y && date[4] == '-' && date[7] == '-';
    assert date[5] == mo[0] && date[6] == mo[1] && date[8] == d[0] && date[9] == d[1];
    assert TwoDigits(date, 5) == TwoDigits(mo, 0) && TwoDigits(date, 8) == TwoDigits(d, 0);
  }

  lemma {:induction false} PaddedDate(year: nat, month: nat, day: nat)
    requires year <= 9999 && 1 <= month <= 12 && 1 <= day <= DaysInMonth(year, month)
    ensures IsDate(DateText(year, month, day))
  {
    DateOfParts(Padded(year, 4), Padded(month, 2), Padded(day, 2));
  }

  lemma PaddedHourMinute(hour: nat, minute: nat)
    requires hour <= 23 && minute <= 59
    ensures IsHourMinute(Padded(hour, 2) + ":" + Padded(minute, 2))
  {
    var h, mi := Padded(hour, 2), Padded(minute, 2);
    var hm := h + ":" + mi;
    TwoDigitsOf(h);
    TwoDigitsOf(mi);
    assert hm[0] == h[0] && hm[1] == h[1] && hm[2] == ':' && hm[3] == mi[0] && hm[4] == mi[1];
  }

  lemma PaddedSeconds(second: nat)
    requires second <= 59
    ensures IsSeconds(":" + Padded(second, 2))
  {
    var sc := Padded(second, 2);
    var sec := ":" + sc;
    TwoDigitsOf(sc);
    assert sec[0] == ':' && sec[1] == sc[0] && sec[2] == sc[1];
  }

  lemma TimeOfParts(hm: string, sec: string, frac: string)
    requires IsHourMinute(hm) && IsSeconds(sec) && IsFraction(frac)
    ensures IsTime(hm + sec + frac)
  {
    var time := hm + sec + frac;
    assert time[..5] == hm && time[5..8] == sec && time[8..] == frac;
  }

  lemma {:induction false} PaddedTime(hour: nat, minute: nat, second: nat, millis: nat)
    requires hour <= 23 && minute <= 59 && second <= 59 && millis <= 999
    ensures IsTime(TimeText(hour, minute, second, millis))
  {
    var hm, sec, frac := Padded(hour, 2) + ":" + Padded(minute, 2), ":" + Padded(second, 2), "." + Padded(millis, 3);
    PaddedHourMinute(hour, minute);
    PaddedSeconds(second);
    assert frac[1..] == Padded(millis, 3);
    TimeOfParts(hm, sec, frac);
    assert hm + sec + frac == TimeText(hour, minute, second, millis);
  }

  lemma DateTimeOfParts(date: string, time: string)
    requires IsDate(date) && IsTime(time)
    ensures IsDateTime(date + "T" + time + "Z")
  {
    var s := date + "T" + time + "Z";
    assert s[..10] == date && s[11..|s| - 1] == time;
  }

  /** Every instant a client formats with `toISOString` passes the check. */
  lemma {:induction false} ToIsoStringAccepted(year: nat, month: nat, day: nat, hour: nat, minute: nat, second: nat, millis: nat)
    requires year <= 9999 && 1 <= month <= 12 && 1 <= day <= DaysInMonth(year, month)
    requires hour <= 23 && minute <= 59 && second <= 59 && millis <= 999
    ensures IsDateTime(ToIsoString(year, month, day, hour, minute, second, millis))
  {
    PaddedDate(year, month, day);
    PaddedTime(hour, minute, second, millis);
    DateTimeOfParts(DateText(year, month, day), TimeText(hour, minute, second, millis));
  }
}
