/** The reading timestamps of sensor.py: `datetime.strptime(text,
    "%d-%m-%Y %H:%M")`, truncation to the hour, and the order of hour keys.

    `strptime` compiles the format into a regular expression that must match
    the whole text: the day is `3[01]|[12]\d|0[1-9]|[1-9]| [1-9]`, the month
    `1[0-2]|0[1-9]|[1-9]`, the year four digits, the blank between year and
    hour one or more whitespace characters, the hour `2[0-3]|[0-1]\d|\d` and
    the minute `[0-5]\d|\d`. A match whose year is 0 or whose day does not
    exist in its month is still a `ValueError`. */
module ReadDate {
  import opened Wrappers
  import opened Chars

  datatype LocalTime = LocalTime(year: int, month: int, day: int, hour: int, minute: int)

  /** A local time with its minutes zeroed: the key of an hourly bucket. */
  datatype HourKey = HourKey(year: int, month: int, day: int, hour: int)

  predicate IsLeapYear(y: int) {
    y % 4 == 0 && (y % 100 != 0 || y % 400 == 0)
  }

  function DaysInMonth(y: int, m: int): (d: int)
    requires 1 <= m <= 12
    ensures 28 <= d <= 31
  {
    if m == 2 then (if IsLeapYear(y) then 29 else 28)
    else if m == 4 || m == 6 || m == 9 || m == 11 then 30
    else 31
  }

  /** A date `datetime` accepts, at a whole minute. */
  predicate ValidTime(t: LocalTime) {
    && 1 <= t.year <= 9999
    && 1 <= t.month <= 12
    && 1 <= t.day <= DaysInMonth(t.year, t.month)
    && 0 <= t.hour <= 23
    && 0 <= t.minute <= 59
  }

  predicate ValidHour(k: HourKey) {
    ValidTime(LocalTime(k.year, k.month, k.day, k.hour, 0))
  }

  /** One numeric field: one digit or two digits, whose value lies in
      `[lo, hi]`. Every field pattern of the format except the day's
      space-padded form is of this shape. */
  function NumberField(t: string, lo: int, hi: int): (r: Option<int>)
    ensures r.Some? ==> lo <= r.value <= hi
    ensures r.Some? ==> 1 <= |t| <= 2 && AllDigits(t)
  {
    if 1 <= |t| <= 2 && AllDigits(t) && lo <= DigitsValue(t) <= hi then Some(DigitsValue(t)) else None
  }

  /** `%d`: a number from 1 to 31, or a blank followed by a digit from 1 to 9. */
  function DayField(t: string): (r: Option<int>)
    ensures r.Some? ==> 1 <= r.value <= 31
  {
    if |t| == 2 && t[0] == ' ' then NumberField(t[1..], 1, 9) else NumberField(t, 1, 31)
  }

  function MakeTime(day: Option<int>, month: Option<int>, year: int, hour: Option<int>, minute: Option<int>): (r: Option<LocalTime>)
    ensures r.Some? ==> ValidTime(r.value)
  {
    if day.Some? && month.Some? && hour.Some? && minute.Some? && 1 <= month.value <= 12 then
      var t := LocalTime(year, month.value, day.value, hour.value, minute.value);
      if ValidTime(t) then Some(t) else None
    else None
  }

  /** `datetime.strptime(s, "%d-%m-%Y %H:%M")`, `None` where it raises. Each
      of the day, month and hour patterns is followed by a separator it cannot
      contain, so it spans exactly the text up to the first such separator. */
  function ParseReadDate(s: string): (r: Option<LocalTime>)
    ensures r.Some? ==> ValidTime(r.value)
  {
    match FirstIndex(s, {'-'})
    case None => None
    case Some(i) =>
      var afterDay := s[i + 1..];
      match FirstIndex(afterDay, {'-'})
      case None => None
      case Some(j) =>
        var afterMonth := afterDay[j + 1..];
        if |afterMonth| < 4 || !AllDigits(afterMonth[..4]) then None
        else
          var afterYear := afterMonth[4..];
          var gap := LeadingSpaces(RegexSpaces, afterYear);
          if gap == 0 then None
          else
            var clock := afterYear[gap..];
            match FirstIndex(clock, {':'})
            case None => None
            case Some(k) =>
              MakeTime(DayField(s[..i]), NumberField(afterDay[..j], 1, 12), DigitsValue(afterMonth[..4]),
                       NumberField(clock[..k], 0, 23), NumberField(clock[k + 1..], 0, 59))
  }

  /** `replace(minute=0, second=0, microsecond=0)`. */
  function HourOf(t: LocalTime): HourKey {
    HourKey(t.year, t.month, t.day, t.hour)
  }

  /** Chronological order of hour keys: lexicographic on (year, month, day, hour). */
  predicate Before(a: HourKey, b: HourKey) {
    || a.year < b.year
    || (a.year == b.year && a.month < b.month)
    || (a.year == b.year && a.month == b.month && a.day < b.day)
    || (a.year == b.year && a.month == b.month && a.day == b.day && a.hour < b.hour)
  }

  /** Zero-padded two and four digit renderings, as the meter data writes them. */
  function Pad2(n: nat): (s: string)
    requires n <= 99
    ensures |s| == 2 && AllDigits(s) && DigitsValue(s) == n
  {
    var s := [DigitChar(n / 10), DigitChar(n % 10)];
    assert DigitsValue(s[..1]) == n / 10 by { assert s[..1][..0] == []; }
    s
  }

  function Pad4(n: nat): (s: string)
    requires n <= 9999
    ensures |s| == 4 && AllDigits(s) && DigitsValue(s) == n
  {
    var s := Pad2(n / 100) + Pad2(n % 100);
    assert s[..3] == Pad2(n / 100) + [s[2]];
    assert s[..2] == Pad2(n / 100);
    assert Pad2(n % 100)[..1] == [s[2]];
    assert [s[2]][..0] == [];
    s
  }

  /** The `DD-MM-YYYY HH:MM` text of a time. */
  function FormatReadDate(t: LocalTime): string
    requires ValidTime(t)
  {
    Pad2(t.day) + "-" + (Pad2(t.month) + "-" + (Pad4(t.year) + " " + (Pad2(t.hour) + ":" + Pad2(t.minute))))
  }

  /** The `HH:MM` tail parses to its hour and minute. */
  lemma {:induction false} ParseClock(hour: nat, minute: nat)
    requires hour <= 23 && minute <= 59
    ensures var clock := Pad2(hour) + ":" + Pad2(minute);
            && FirstIndex(clock, {':'}) == Some(2)
            && NumberField(clock[..2], 0, 23) == Some(hour)
            && NumberField(clock[3..], 0, 59) == Some(minute)
  {
    FirstIndexAfterPrefix(Pad2(hour), ':', Pad2(minute), {':'});
  }

  /** The `YYYY HH:MM` tail: four year digits, one blank, then the clock. */
  lemma {:induction false} ParseYearAndClock(year: nat, clock: string)
    requires year <= 9999 && |clock| > 0 && IsDigit(clock[0])
    ensures var afterMonth := Pad4(year) + " " + clock;
            && |afterMonth| >= 4 && afterMonth[..4] == Pad4(year)
            && LeadingSpaces(RegexSpaces, afterMonth[4..]) == 1
            && afterMonth[4..][1..] == clock
  {
    var afterMonth := Pad4(year) + " " + clock;
    assert afterMonth[4..] == " " + clock;
    assert (" " + clock)[1..] == clock;
    assert LeadingSpaces(RegexSpaces, " " + clock) == 1 + LeadingSpaces(RegexSpaces, clock);
  }

  /** Everything after the month: the year, the gap and the clock. */
  lemma {:induction false} ParseAfterMonth(t: LocalTime)
    requires ValidTime(t)
    ensures var afterMonth := Pad4(t.year) + " " + (Pad2(t.hour) + ":" + Pad2(t.minute));
            var afterYear := afterMonth[4..];
            var clock := afterYear[1..];
            && |afterMonth| == 10 && AllDigits(afterMonth[..4]) && DigitsValue(afterMonth[..4]) == t.year
            && LeadingSpaces(RegexSpaces, afterYear) == 1
            && FirstIndex(clock, {':'}) == Some(2)
            && NumberField(clock[..2], 0, 23) == Some(t.hour)
            && NumberField(clock[3..], 0, 59) == Some(t.minute)
  {
    var clock := Pad2(t.hour) + ":" + Pad2(t.minute);
    ParseClock(t.hour, t.minute);
    ParseYearAndClock(t.year, clock);
  }

  /** `strptime` reads back every time written in the `DD-MM-YYYY HH:MM` form. */
  lemma {:induction false} ParseFormatRoundTrip(t: LocalTime)
    requires ValidTime(t)
    ensures ParseReadDate(FormatReadDate(t)) == Some(t)
    ensures |FormatReadDate(t)| == 16
  {
    var afterMonth := Pad4(t.year) + " " + (Pad2(t.hour) + ":" + Pad2(t.minute));
    var afterDay := Pad2(t.month) + "-" + afterMonth;
    var s := Pad2(t.day) + "-" + afterDay;
    assert s == FormatReadDate(t);
    FirstIndexAfterPrefix(Pad2(t.day), '-', afterDay, {'-'});
    FirstIndexAfterPrefix(Pad2(t.month), '-', afterMonth, {'-'});
    ParseAfterMonth(t);
    assert DayField(s[..2]) == Some(t.day);
    assert NumberField(afterDay[..2], 1, 12) == Some(t.month);
  }

  /** Before is a strict total order. */
  lemma {:induction false} BeforeIsStrictTotalOrder(a: HourKey, b: HourKey, c: HourKey)
    ensures !Before(a, a)
    ensures Before(a, b) && Before(b, c) ==> Before(a, c)
    ensures a != b ==> Before(a, b) || Before(b, a)
    ensures Before(a, b) ==> !Before(b, a)
  {
  }

  function DaysInYear(y: int): int {
    if IsLeapYear(y) then 366 else 365
  }

  /** Days from 1 January of year 1 to 1 January of year `y`. */
  function DaysBeforeYear(y: int): nat
    requires y >= 1
  {
    if y == 1 then 0 else DaysBeforeYear(y - 1) + DaysInYear(y - 1)
  }

  /** Days from 1 January to the first of month `m` in year `y`. */
  function DaysBeforeMonth(y: int, m: int): nat
    requires 1 <= m <= 13
  {
    if m == 1 then 0 else DaysBeforeMonth(y, m - 1) + DaysInMonth(y, m - 1)
  }

  /** The number of whole hours from 0:00 on 1 January of year 1, counting
      every day as 24 hours (local wall-clock time). */
  function HourIndex(k: HourKey): int
    requires ValidHour(k)
  {
    ((DaysBeforeYear(k.year) + DaysBeforeMonth(k.year, k.month) + k.day - 1) * 24) + k.hour
  }

  /** The twelve months make up the year. */
  lemma {:induction false} MonthsMakeYear(y: int)
    ensures DaysBeforeMonth(y, 13) == DaysInYear(y)
  {
    assert DaysBeforeMonth(y, 2) == 31;
    assert DaysBeforeMonth(y, 4) == DaysBeforeMonth(y, 3) + 31;
    assert DaysBeforeMonth(y, 6) == DaysBeforeMonth(y, 4) + 61;
    assert DaysBeforeMonth(y, 8) == DaysBeforeMonth(y, 6) + 61;
    assert DaysBeforeMonth(y, 10) == DaysBeforeMonth(y, 8) + 61;
    assert DaysBeforeMonth(y, 12) == DaysBeforeMonth(y, 10) + 61;
  }

  lemma {:induction false} DaysBeforeMonthBound(y: int, m: int)
    requires 1 <= m <= 12
    ensures DaysBeforeMonth(y, m) + DaysInMonth(y, m) <= DaysInYear(y)
  {
    MonthsMakeYear(y);
    if m < 12 {
      DaysBeforeMonthMonotone(y, m, 12);
    }
  }

  lemma {:induction false} DaysBeforeYearMonotone(y: int, z: int)
    requires 1 <= y <= z
    ensures DaysBeforeYear(y) + DaysInYear(y) <= DaysBeforeYear(z) || y == z
  {
    if y < z {
      if y < z - 1 {
        DaysBeforeYearMonotone(y, z - 1);
      }
    }
  }

  lemma {:induction false} DaysBeforeMonthMonotone(y: int, m: int, n: int)
    requires 1 <= m < n <= 12
    ensures DaysBeforeMonth(y, m) + DaysInMonth(y, m) <= DaysBeforeMonth(y, n)
  {
    if m < n - 1 {
      DaysBeforeMonthMonotone(y, m, n - 1);
    }
  }

  /** The lexicographic order of hour keys is their chronological order, the
      order in which Python compares the corresponding `datetime` values. */
  lemma {:induction false} BeforeIsChronological(a: HourKey, b: HourKey)
    requires ValidHour(a) && ValidHour(b)
    ensures Before(a, b) <==> HourIndex(a) < HourIndex(b)
    ensures a == b <==> HourIndex(a) == HourIndex(b)
  {
    if a.year < b.year {
      HourBeforeNextYear(a);
      DaysBeforeYearMonotone(a.year, b.year);
    } else if b.year < a.year {
      HourBeforeNextYear(b);
      DaysBeforeYearMonotone(b.year, a.year);
    } else if a.month < b.month {
      DaysBeforeMonthMonotone(a.year, a.month, b.month);
    } else if b.month < a.month {
      DaysBeforeMonthMonotone(a.year, b.month, a.month);
    }
  }

  lemma {:induction false} HourBeforeNextYear(k: HourKey)
    requires ValidHour(k)
    ensures HourIndex(k) < (DaysBeforeYear(k.year) + DaysInYear(k.year)) * 24
  {
    DaysBeforeMonthBound(k.year, k.month);
  }
}
