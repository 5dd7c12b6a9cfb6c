/** UTC dates to Unix seconds (default/quiche_platform_impl/quiche_time_utils_impl.cc).

    The source validates by normalising and comparing, and takes second 60 through second 59.
    The called time library is modelled by its meaning: the proleptic Gregorian calendar,
    with out-of-range fields carried into the next larger one. */
module CivilTime {
  import opened Text

  predicate IsInt32(x: int) {
    -0x8000_0000 <= x < 0x8000_0000
  }

  type Int32 = x: int | IsInt32(x)

  datatype Civil = Civil(year: int, month: int, day: int, hour: int, minute: int, second: int)

  // ---------------------------------------------------------------------------------------
  // The calendar
  // ---------------------------------------------------------------------------------------

  predicate Leap(year: int) {
    year % 4 == 0 && (year % 100 != 0 || year % 400 == 0)
  }

  function DaysInMonth(year: int, month: int): int {
    if month == 2 then (if Leap(year) then 29 else 28)
    else if month == 4 || month == 6 || month == 9 || month == 11 then 30
    else 31
  }

  predicate Int32Fields(c: Civil) {
    && IsInt32(c.year) && IsInt32(c.month) && IsInt32(c.day)
    && IsInt32(c.hour) && IsInt32(c.minute) && IsInt32(c.second)
  }

  predicate Valid(c: Civil) {
    && 1 <= c.month <= 12
    && 1 <= c.day <= DaysInMonth(c.year, c.month)
    && 0 <= c.hour < 24
    && 0 <= c.minute < 60
    && 0 <= c.second < 60
  }

  /** Days before 1 January of the year, counted from 1 January of year 1. */
  function DaysBeforeYear(year: int): int {
    var y := year - 1;
    365 * y + y / 4 - y / 100 + y / 400
  }

  function DaysBeforeMonth(year: int, month: int): int
    requires 1 <= month <= 13
  {
    var leapDay := if Leap(year) then 1 else 0;
    if month == 1 then 0
    else if month == 2 then 31
    else if month == 3 then 59 + leapDay
    else if month == 4 then 90 + leapDay
    else if month == 5 then 120 + leapDay
    else if month == 6 then 151 + leapDay
    else if month == 7 then 181 + leapDay
    else if month == 8 then 212 + leapDay
    else if month == 9 then 243 + leapDay
    else if month == 10 then 273 + leapDay
    else if month == 11 then 304 + leapDay
    else if month == 12 then 334 + leapDay
    else 365 + leapDay
  }

  const EPOCH_DAY := 719162

  /** Days since 1 January 1970; `day` may lie outside the month. */
  function DayNumber(year: int, month: int, day: int): int
    requires 1 <= month <= 12
  {
    DaysBeforeYear(year) + DaysBeforeMonth(year, month) + day - 1 - EPOCH_DAY
  }

  // ---------------------------------------------------------------------------------------
  // The called library
  // ---------------------------------------------------------------------------------------

  /** Moves an out-of-range day into the neighbouring months. */
  function NormalizeDay(year: int, month: int, day: int): (int, int, int)
    requires 1 <= month <= 12
    decreases if day < 1 then 1 - day else if day > DaysInMonth(year, month) then day else 0
  {
    if day < 1 then
      var (y, m) := if month == 1 then (year - 1, 12) else (year, month - 1);
      NormalizeDay(y, m, day + DaysInMonth(y, m))
    else if day > DaysInMonth(year, month) then
      var (y, m) := if month == 12 then (year + 1, 1) else (year, month + 1);
      NormalizeDay(y, m, day - DaysInMonth(year, month))
    else (year, month, day)
  }

  /** absl::CivilSecond: every field is carried into the next larger one. */
  function Normalize(c: Civil): Civil {
    var minute := c.minute + c.second / 60;
    var hour := c.hour + minute / 60;
    var day := c.day + hour / 24;
    var (y, m, d) := NormalizeDay(c.year + (c.month - 1) / 12, (c.month - 1) % 12 + 1, day);
    Civil(y, m, d, hour % 24, minute % 60, c.second % 60)
  }

  /** absl::ToUnixSeconds of absl::FromCivil in UTC, extended to fields out of range. */
  function UnixSeconds(c: Civil): int {
    DayNumber(c.year + (c.month - 1) / 12, (c.month - 1) % 12 + 1, c.day) * 86400
    + c.hour * 3600 + c.minute * 60 + c.second
  }

  // ---------------------------------------------------------------------------------------
  // The two functions of the source
  // ---------------------------------------------------------------------------------------

  function UtcDateTimeToUnixSecondsInner(year: Int32, month: Int32, day: Int32,
                                         hour: Int32, minute: Int32, second: Int32): Option<int>
  {
    var civil := Normalize(Civil(year, month, day, hour, minute, second));
    if second != 60 &&
       (civil.year != year || civil.month != month ||
        civil.day != day || civil.hour != hour ||
        civil.minute != minute || civil.second != second) then None
    else Some(UnixSeconds(civil))
  }

  function UtcDateTimeToUnixSeconds(year: Int32, month: Int32, day: Int32,
                                    hour: Int32, minute: Int32, second: Int32): Option<int>
  {
    if second == 60 then
      match UtcDateTimeToUnixSecondsInner(year, month, day, hour, minute, second - 1)
      case None => None
      case Some(previous) => Some(previous + 1)
    else UtcDateTimeToUnixSecondsInner(year, month, day, hour, minute, second)
  }

  // ---------------------------------------------------------------------------------------
  // Day counts
  // ---------------------------------------------------------------------------------------

  lemma YearLength(year: int)
    ensures DaysBeforeYear(year + 1) == DaysBeforeYear(year) + DaysBeforeMonth(year, 13)
    ensures DaysBeforeMonth(year, 13) == if Leap(year) then 366 else 365
  {
    MultiplesUpTo(year, 4);
    MultiplesUpTo(year, 100);
    MultiplesUpTo(year, 400);
    Centuries(year);
  }

  lemma Centuries(year: int)
    ensures year % 400 == 0 ==> year % 100 == 0
    ensures year % 100 == 0 ==> year % 4 == 0
  {
    if year % 400 == 0 {
      QuotientIs(year, 100, 4 * (year / 400), 0);
    }
    if year % 100 == 0 {
      QuotientIs(year, 4, 25 * (year / 100), 0);
    }
  }

  lemma MultiplesUpTo(n: int, k: int)
    requires k > 0
    ensures n / k == (n - 1) / k + if n % k == 0 then 1 else 0
  {
    var q, m := n / k, n % k;
    assert n == k * q + m;
    if m == 0 {
      assert n - 1 == k * (q - 1) + (k - 1);
      QuotientIs(n - 1, k, q - 1, k - 1);
    } else {
      QuotientIs(n - 1, k, q, m - 1);
    }
  }

  lemma QuotientIs(n: int, k: int, q: int, m: int)
    requires 0 <= m < k && n == k * q + m
    ensures n / k == q
  {
    var d := n / k - q;
    assert n == k * (n / k) + n % k;
    assert k * d == m - n % k;
    assert d >= 1 ==> k * d >= k;
    assert d <= -1 ==> k * d <= -k;
  }

  /** The first day of the next month is one month length later, also across the year. */
  lemma NextMonth(year: int, month: int, day: int)
    requires 1 <= month <= 12
    ensures var (y, m) := if month == 12 then (year + 1, 1) else (year, month + 1);
            DayNumber(y, m, day) == DayNumber(year, month, day) + DaysInMonth(year, month)
  {
    if month == 12 {
      YearLength(year);
    }
  }

  /** A date in range with the same day number. */
  predicate SameDay(date: (int, int, int), year: int, month: int, day: int)
    requires 1 <= month <= 12
  {
    var (y, m, d) := date;
    1 <= m <= 12 && 1 <= d <= DaysInMonth(y, m) && DayNumber(y, m, d) == DayNumber(year, month, day)
  }

  lemma {:induction false} NormalizeDayDown(year: int, month: int, day: int)
    requires 1 <= month <= 12 && day < 1
    ensures SameDay(NormalizeDay(year, month, day), year, month, day)
    decreases -day
  {
    var (y, m) := if month == 1 then (year - 1, 12) else (year, month - 1);
    NextMonth(y, m, day);
    if day + DaysInMonth(y, m) < 1 {
      NormalizeDayDown(y, m, day + DaysInMonth(y, m));
    }
  }

  lemma {:induction false} NormalizeDayUp(year: int, month: int, day: int)
    requires 1 <= month <= 12 && day > DaysInMonth(year, month)
    ensures SameDay(NormalizeDay(year, month, day), year, month, day)
    decreases day
  {
    var (y, m) := if month == 12 then (year + 1, 1) else (year, month + 1);
    NextMonth(year, month, day);
    if day - DaysInMonth(year, month) > DaysInMonth(y, m) {
      NormalizeDayUp(y, m, day - DaysInMonth(year, month));
    }
  }

  lemma NormalizeDayKeepsDay(year: int, month: int, day: int)
    requires 1 <= month <= 12
    ensures SameDay(NormalizeDay(year, month, day), year, month, day)
  {
    if day < 1 {
      NormalizeDayDown(year, month, day);
    } else if day > DaysInMonth(year, month) {
      NormalizeDayUp(year, month, day);
    }
  }

  lemma ClockCarries(hour: int, minute: int, second: int)
    ensures var m := minute + second / 60;
            var h := hour + m / 60;
            h / 24 * 86400 + h % 24 * 3600 + m % 60 * 60 + second % 60 == hour * 3600 + minute * 60 + second
  {
  }

  /** Normalisation puts every field in range and does not move the instant. */
  lemma NormalizeKeepsInstant(c: Civil)
    ensures Valid(Normalize(c)) && UnixSeconds(Normalize(c)) == UnixSeconds(c)
  {
    var hour := c.hour + (c.minute + c.second / 60) / 60;
    var y, m := c.year + (c.month - 1) / 12, (c.month - 1) % 12 + 1;
    NormalizeDayKeepsDay(y, m, c.day + hour / 24);
    ClockCarries(c.hour, c.minute, c.second);
    var n := Normalize(c);
    assert DayNumber(n.year, n.month, n.day) == DayNumber(y, m, c.day + hour / 24) == DayNumber(y, m, c.day) + hour / 24;
    UnixSecondsOfValid(n);
  }

  /** Normalisation changes nothing exactly when every field is in range. */
  lemma NormalizeFixesExactlyValid(c: Civil)
    ensures Normalize(c) == c <==> Valid(c)
  {
    NormalizeKeepsInstant(c);
    if Valid(c) {
      assert c.second / 60 == 0 && c.minute / 60 == 0 && c.hour / 24 == 0 && (c.month - 1) / 12 == 0;
    }
  }

  // ---------------------------------------------------------------------------------------
  // Order
  // ---------------------------------------------------------------------------------------

  predicate Before(a: Civil, b: Civil) {
    if a.year != b.year then a.year < b.year
    else if a.month != b.month then a.month < b.month
    else if a.day != b.day then a.day < b.day
    else if a.hour != b.hour then a.hour < b.hour
    else if a.minute != b.minute then a.minute < b.minute
    else a.second < b.second
  }

  lemma {:induction false} MonthsAreDisjoint(year: int, m: int, n: int)
    requires 1 <= m < n <= 13
    ensures 0 <= DaysBeforeMonth(year, m)
    ensures DaysBeforeMonth(year, m) + DaysInMonth(year, m) <= DaysBeforeMonth(year, n)
    decreases m + n
  {
    if m > 1 {
      MonthsAreDisjoint(year, m - 1, m);
    }
    if m < n - 1 {
      MonthsAreDisjoint(year, m, n - 1);
    }
  }

  lemma {:induction false} YearsAreDisjoint(a: int, b: int)
    requires a < b
    ensures DaysBeforeYear(a) + DaysBeforeMonth(a, 13) <= DaysBeforeYear(b)
    decreases b - a
  {
    YearLength(a);
    if a + 1 < b {
      YearsAreDisjoint(a + 1, b);
      YearLength(a + 1);
    }
  }

  lemma DaysAreOrdered(a: Civil, b: Civil)
    requires Valid(a) && Valid(b)
    requires a.year < b.year || (a.year == b.year && (a.month < b.month || (a.month == b.month && a.day < b.day)))
    ensures DayNumber(a.year, a.month, a.day) < DayNumber(b.year, b.month, b.day)
  {
    MonthsAreDisjoint(a.year, a.month, 13);
    MonthsAreDisjoint(b.year, b.month, 13);
    if a.year < b.year {
      YearsAreDisjoint(a.year, b.year);
    } else if a.month < b.month {
      MonthsAreDisjoint(a.year, a.month, b.month);
    }
  }

  lemma UnixSecondsOfValid(c: Civil)
    requires Valid(c)
    ensures UnixSeconds(c) == DayNumber(c.year, c.month, c.day) * 86400 + c.hour * 3600 + c.minute * 60 + c.second
    ensures 0 <= c.hour * 3600 + c.minute * 60 + c.second < 86400
  {
    MonthInRange(c.month);
  }

  lemma MonthInRange(month: int)
    requires 1 <= month <= 12
    ensures (month - 1) / 12 == 0 && (month - 1) % 12 == month - 1
  {
  }

  /** Later dates have larger values. */
  lemma UnixSecondsAreOrdered(a: Civil, b: Civil)
    requires Valid(a) && Valid(b)
    ensures Before(a, b) <==> UnixSeconds(a) < UnixSeconds(b)
    ensures a == b <==> UnixSeconds(a) == UnixSeconds(b)
  {
    if Before(a, b) {
      EarlierIsSmaller(a, b);
    } else if Before(b, a) {
      EarlierIsSmaller(b, a);
    }
  }

  lemma EarlierIsSmaller(a: Civil, b: Civil)
    requires Valid(a) && Valid(b) && Before(a, b)
    ensures UnixSeconds(a) < UnixSeconds(b)
  {
    UnixSecondsOfValid(a);
    UnixSecondsOfValid(b);
    if a.year == b.year && a.month == b.month && a.day == b.day {
    } else {
      DaysAreOrdered(a, b);
    }
  }

  /** Seconds given as seconds of the first minute of 1970. */
  lemma SecondsFromEpoch(c: Civil)
    requires c.year == 1970 && c.month == 1 && c.day == 1 && c.hour == 0 && c.minute == 0
    ensures UnixSeconds(c) == c.second
  {
    var y := c.year - 1;
    assert y / 4 == 492 && y / 100 == 19 && y / 400 == 4;
    assert DayNumber(c.year, c.month, c.day) == 0;
    MonthInRange(c.month);
  }

  /** Every whole second is the value of exactly one valid date-time. */
  lemma EverySecondHasOneDate(t: int, c: Civil)
    requires Valid(c)
    ensures Valid(Normalize(Civil(1970, 1, 1, 0, 0, t)))
    ensures UnixSeconds(c) == t <==> c == Normalize(Civil(1970, 1, 1, 0, 0, t))
  {
    var d := Civil(1970, 1, 1, 0, 0, t);
    NormalizeKeepsInstant(d);
    SecondsFromEpoch(d);
    UnixSecondsAreOrdered(c, Normalize(d));
  }

  /** The same hand of the clock one minute on, by the rules of the calendar. */
  function FollowingMinute(c: Civil): Civil {
    if c.minute < 59 then c.(minute := c.minute + 1)
    else if c.hour < 23 then c.(hour := c.hour + 1, minute := 0)
    else if c.day < DaysInMonth(c.year, c.month) then c.(day := c.day + 1, hour := 0, minute := 0)
    else if c.month < 12 then c.(month := c.month + 1, day := 1, hour := 0, minute := 0)
    else Civil(c.year + 1, 1, 1, 0, 0, c.second)
  }

  /** Over midnight the day number grows by one, at the end of a month and of a year too. */
  lemma FollowingDay(c: Civil)
    requires Valid(c) && c.minute == 59 && c.hour == 23
    ensures var n := FollowingMinute(c);
            Valid(n) && DayNumber(n.year, n.month, n.day) == DayNumber(c.year, c.month, c.day) + 1
  {
    if c.day == DaysInMonth(c.year, c.month) {
      NextMonth(c.year, c.month, 1);
      assert DayNumber(c.year, c.month, c.day) == DayNumber(c.year, c.month, 1) + c.day - 1;
    }
  }

  lemma FollowingMinuteIsLater(c: Civil)
    requires Valid(c)
    ensures Valid(FollowingMinute(c)) && UnixSeconds(FollowingMinute(c)) == UnixSeconds(c) + 60
  {
    UnixSecondsOfValid(c);
    if c.minute == 59 && c.hour == 23 {
      FollowingDay(c);
    }
    UnixSecondsOfValid(FollowingMinute(c));
  }

  // ---------------------------------------------------------------------------------------
  // What the source promises
  // ---------------------------------------------------------------------------------------

  /** Apart from second 60, exactly the valid date-times are accepted. */
  lemma AcceptsExactlyValid(year: Int32, month: Int32, day: Int32, hour: Int32, minute: Int32, second: Int32)
    requires second != 60
    ensures var c := Civil(year, month, day, hour, minute, second);
            UtcDateTimeToUnixSeconds(year, month, day, hour, minute, second)
            == if Valid(c) then Some(UnixSeconds(c)) else None
  {
    NormalizeFixesExactlyValid(Civil(year, month, day, hour, minute, second));
  }

  /** Accepted values order and separate the fields they come from. */
  lemma AcceptedValuesAreOrdered(a: Civil, b: Civil, s: int, t: int)
    requires Int32Fields(a) && Int32Fields(b) && a.second != 60 && b.second != 60
    requires UtcDateTimeToUnixSeconds(a.year, a.month, a.day, a.hour, a.minute, a.second) == Some(s)
    requires UtcDateTimeToUnixSeconds(b.year, b.month, b.day, b.hour, b.minute, b.second) == Some(t)
    ensures s < t <==> Before(a, b)
    ensures s == t <==> a == b
  {
    AcceptsExactlyValid(a.year, a.month, a.day, a.hour, a.minute, a.second);
    AcceptsExactlyValid(b.year, b.month, b.day, b.hour, b.minute, b.second);
    UnixSecondsAreOrdered(a, b);
  }

  /** Second 60 is accepted exactly when second 59 of the same minute is valid,
      and its value is that of second 0 of the following minute. */
  lemma LeapSecondIsFollowingMinute(year: Int32, month: Int32, day: Int32, hour: Int32, minute: Int32)
    ensures UtcDateTimeToUnixSeconds(year, month, day, hour, minute, 60)
            == if Valid(Civil(year, month, day, hour, minute, 59))
               then Some(UnixSeconds(FollowingMinute(Civil(year, month, day, hour, minute, 0)))) else None
  {
    var c, start := Civil(year, month, day, hour, minute, 59), Civil(year, month, day, hour, minute, 0);
    AcceptsExactlyValid(year, month, day, hour, minute, 59);
    if Valid(c) {
      FollowingMinuteIsLater(start);
      UnixSecondsOfValid(c);
      UnixSecondsOfValid(start);
    }
  }

  /** So the function itself answers the same for both, as long as the year of the second
      still fits in 32 bits: carries over hour, day, month, leap February and year included. */
  lemma LeapSecondEqualsNextCall(year: Int32, month: Int32, day: Int32, hour: Int32, minute: Int32, next: Civil)
    requires Valid(Civil(year, month, day, hour, minute, 59))
    requires next == FollowingMinute(Civil(year, month, day, hour, minute, 0)) && Int32Fields(next)
    ensures UtcDateTimeToUnixSeconds(year, month, day, hour, minute, 60)
            == UtcDateTimeToUnixSeconds(next.year, next.month, next.day, next.hour, next.minute, 0)
  {
    LeapSecondIsFollowingMinute(year, month, day, hour, minute);
    FollowingMinuteIsLater(Civil(year, month, day, hour, minute, 0));
    assert next.second == 0;
    AcceptsExactlyValid(next.year, next.month, next.day, next.hour, next.minute, 0);
  }

  /** Second 60 in the inner function: it would accept anything, and it is never reached. */
  lemma ExemptionIsNeverUsed(year: Int32, month: Int32, day: Int32, hour: Int32, minute: Int32, second: Int32)
    ensures UtcDateTimeToUnixSecondsInner(year, month, day, hour, minute, 60).Some?
    ensures var asked: Int32 := if second == 60 then 59 else second;
            UtcDateTimeToUnixSeconds(year, month, day, hour, minute, second).Some?
            <==> Normalize(Civil(year, month, day, hour, minute, asked)) == Civil(year, month, day, hour, minute, asked)
  {
  }

  /** Every value the function returns fits in int64, for every 32-bit input. */
  lemma ValuesFitInt64(year: Int32, month: Int32, day: Int32, hour: Int32, minute: Int32, second: Int32)
    ensures var r := UtcDateTimeToUnixSeconds(year, month, day, hour, minute, second);
            r.Some? ==> -0x8000_0000_0000_0000 <= r.value < 0x8000_0000_0000_0000
  {
    var c := Civil(year, month, day, hour, minute, if second == 60 then 59 else second);
    AcceptsExactlyValid(year, month, day, hour, minute, c.second);
    if Valid(c) {
      UnixSecondsOfValid(c);
      DayNumberBounds(c);
    }
  }

  lemma DayNumberBounds(c: Civil)
    requires Valid(c) && IsInt32(c.year)
    ensures -0x200_0000_0000 <= DayNumber(c.year, c.month, c.day) < 0x200_0000_0000
  {
    var y := c.year - 1;
    assert -0x8000_0001 <= y / 4 <= 0x8000_0000;
    assert -0x8000_0001 <= y / 100 <= 0x8000_0000;
    assert -0x8000_0001 <= y / 400 <= 0x8000_0000;
  }

  /** The count starts at the epoch. An order-preserving numbering of all valid date-times by
      all the integers is fixed by one point, so with EverySecondHasOneDate and
      UnixSecondsAreOrdered this leaves no other count possible. */
  lemma EpochIsZero(epoch: Civil)
    requires epoch.year == 1970 && epoch.month == 1 && epoch.day == 1
    requires epoch.hour == 0 && epoch.minute == 0 && epoch.second == 0
    ensures Valid(epoch) && UnixSeconds(epoch) == 0
  {
    var y := epoch.year - 1;
    assert y / 4 == 492 && y / 100 == 19 && y / 400 == 4;
    assert DayNumber(epoch.year, epoch.month, epoch.day) == 0;
    UnixSecondsOfValid(epoch);
  }
}
