/**
 UTC broken-down time: the inverse of the Seconds Since the Epoch formula
 (POSIX.1-2017 Base Definitions, section 4.16) on the Gregorian calendar.
 It stands for gmtime_r, which src/storage/file_roll.h calls.
 */
module Calendar {

  datatype Tm = Tm(year: nat, month: nat, day: nat, hour: nat, minute: nat, second: nat)

  predicate Leap(y: int) {
    y % 4 == 0 && (y % 100 != 0 || y % 400 == 0)
  }

  function YearLength(y: int): int {
    if Leap(y) then 366 else 365
  }

  function MonthLength(y: int, m: int): (n: int)
    ensures 28 <= n <= 31
  {
    if m == 2 then (if Leap(y) then 29 else 28)
    else if m == 4 || m == 6 || m == 9 || m == 11 then 30
    else 31
  }

  /** Days from 1970-01-01 to the first day of the year, in the standard's own terms. */
  function DaysBeforeYear(y: int): int {
    (y - 1970) * 365 + (y - 1969) / 4 - (y - 1901) / 100 + (y - 1601) / 400
  }

  function DaysBeforeMonth(y: int, m: nat): int {
    if m <= 1 then 0 else DaysBeforeMonth(y, m - 1) + MonthLength(y, m - 1)
  }

  ghost predicate ValidTm(t: Tm) {
    && 1970 <= t.year
    && 1 <= t.month <= 12
    && 1 <= t.day <= MonthLength(t.year, t.month)
    && 0 <= t.hour < 24 && 0 <= t.minute < 60 && 0 <= t.second < 60
  }

  function DayNumber(t: Tm): int {
    DaysBeforeYear(t.year) + DaysBeforeMonth(t.year, t.month) + t.day - 1
  }

  /** The formula of section 4.16. */
  function SecondsSinceEpoch(t: Tm): int {
    t.second + t.minute * 60 + t.hour * 3600 + DayNumber(t) * 86400
  }

  // ------------------------------------------------------------------ gmtime

  lemma NextYear(y: int)
    ensures DaysBeforeYear(y + 1) == DaysBeforeYear(y) + YearLength(y)
  {
    LeapBy4(y);
    LeapBy100(y);
    LeapBy400(y);
  }

  lemma LeapBy4(y: int)
    ensures (y + 1 - 1969) / 4 - (y - 1969) / 4 == if y % 4 == 0 then 1 else 0
  {
  }

  lemma LeapBy100(y: int)
    ensures (y + 1 - 1901) / 100 - (y - 1901) / 100 == if y % 100 == 0 then 1 else 0
  {
  }

  lemma LeapBy400(y: int)
    ensures (y + 1 - 1601) / 400 - (y - 1601) / 400 == if y % 400 == 0 then 1 else 0
    ensures y % 400 == 0 ==> y % 100 == 0
    ensures y % 100 == 0 ==> y % 4 == 0
  {
  }

  function YearOf(day: int, y: int): (r: int)
    requires DaysBeforeYear(y) <= day
    ensures y <= r && DaysBeforeYear(r) <= day < DaysBeforeYear(r + 1)
    decreases day - DaysBeforeYear(y)
  {
    NextYear(y);
    if day < DaysBeforeYear(y + 1) then y else YearOf(day, y + 1)
  }

  function MonthOf(y: int, yday: int, m: nat): (r: nat)
    requires 1 <= m <= 12 && DaysBeforeMonth(y, m) <= yday < YearLength(y)
    ensures m <= r <= 12 && DaysBeforeMonth(y, r) <= yday < DaysBeforeMonth(y, r) + MonthLength(y, r)
    decreases 12 - m
  {
    if yday < DaysBeforeMonth(y, m) + MonthLength(y, m) then m
    else MonthWithin(y, m); MonthOf(y, yday, m + 1)
  }

  lemma NextMonth(y: int, m: nat)
    requires m >= 1
    ensures DaysBeforeMonth(y, m + 1) == DaysBeforeMonth(y, m) + MonthLength(y, m)
  {
  }

  lemma WholeYear(y: int)
    ensures DaysBeforeMonth(y, 12) + MonthLength(y, 12) == YearLength(y)
  {
    NextMonth(y, 1); NextMonth(y, 2); NextMonth(y, 3); NextMonth(y, 4);
    NextMonth(y, 5); NextMonth(y, 6); NextMonth(y, 7); NextMonth(y, 8);
    NextMonth(y, 9); NextMonth(y, 10); NextMonth(y, 11);
  }

  /** Only December reaches the end of the year. */
  lemma {:induction false} MonthWithin(y: int, m: nat)
    requires 1 <= m <= 12
    ensures DaysBeforeMonth(y, m) + MonthLength(y, m) <= YearLength(y)
    ensures m == 12 ==> DaysBeforeMonth(y, m) + MonthLength(y, m) == YearLength(y)
    decreases 12 - m
  {
    if m == 12 {
      WholeYear(y);
    } else {
      MonthWithin(y, m + 1);
    }
  }

  function Gmtime(sec: nat): (t: Tm) {
    var day, rest := sec / 86400, sec % 86400;
    var y := YearOf(day, 1970);
    var yday := day - DaysBeforeYear(y);
    NextYear(y);
    var m := MonthOf(y, yday, 1);
    Tm(y, m, yday - DaysBeforeMonth(y, m) + 1, rest / 3600, rest % 3600 / 60, rest % 60)
  }

  // ----------------------------------------------------------- it is the inverse

  lemma {:induction false} GmtimeIsInverse(sec: nat)
    ensures ValidTm(Gmtime(sec))
    ensures SecondsSinceEpoch(Gmtime(sec)) == sec
  {
  }

  ghost predicate DateBefore(a: Tm, b: Tm) {
    || a.year < b.year
    || (a.year == b.year && a.month < b.month)
    || (a.year == b.year && a.month == b.month && a.day < b.day)
  }

  lemma {:induction false} YearsAscend(y: int, z: int)
    requires y < z
    ensures DaysBeforeYear(y) + YearLength(y) <= DaysBeforeYear(z)
    decreases z - y
  {
    NextYear(y);
    if y + 1 < z {
      YearsAscend(y + 1, z);
    }
  }

  lemma {:induction false} MonthsAscend(y: int, m: nat, n: nat)
    requires 1 <= m < n <= 12
    ensures DaysBeforeMonth(y, m) + MonthLength(y, m) <= DaysBeforeMonth(y, n)
    decreases n
  {
    if m < n - 1 {
      MonthsAscend(y, m, n - 1);
    }
  }

  lemma DatesAscend(a: Tm, b: Tm)
    requires ValidTm(a) && ValidTm(b) && DateBefore(a, b)
    ensures DayNumber(a) < DayNumber(b)
  {
    if a.year < b.year {
      YearsAscend(a.year, b.year);
      MonthWithin(a.year, a.month);
      if b.month > 1 {
        MonthsAscend(b.year, 1, b.month);
      }
    } else if a.year == b.year && a.month < b.month {
      MonthsAscend(a.year, a.month, b.month);
    }
  }

  /** Every valid broken-down time is the one Gmtime gives for its second. */
  lemma {:induction false} GmtimeIsUnique(t: Tm)
    requires ValidTm(t)
    ensures SecondsSinceEpoch(t) >= 0 && Gmtime(SecondsSinceEpoch(t)) == t
  {
    hide Gmtime, DaysBeforeYear, DaysBeforeMonth, MonthLength;
    NotBeforeEpoch(t);
    var u := Gmtime(SecondsSinceEpoch(t));
    GmtimeIsInverse(SecondsSinceEpoch(t));
    SameDay(t, u);
    if DateBefore(t, u) {
      DatesAscend(t, u);
    } else if DateBefore(u, t) {
      DatesAscend(u, t);
    }
  }

  lemma NotBeforeEpoch(t: Tm)
    requires ValidTm(t)
    ensures DayNumber(t) >= 0
  {
    var epoch := Tm(1970, 1, 1, 0, 0, 0);
    if DateBefore(epoch, t) {
      DatesAscend(epoch, t);
    }
  }

  lemma SameDay(t: Tm, u: Tm)
    requires ValidTm(t) && ValidTm(u) && SecondsSinceEpoch(t) == SecondsSinceEpoch(u)
    ensures DayNumber(t) == DayNumber(u)
    ensures t.hour == u.hour && t.minute == u.minute && t.second == u.second
  {
  }

  /** Year, month, day and hour order instants exactly as whole hours since the epoch do. */
  lemma {:induction false} HoursOrderDates(s: nat, t: nat)
    ensures s / 3600 < t / 3600 <==>
            DateBefore(Gmtime(s), Gmtime(t))
            || (Gmtime(s).(hour := 0, minute := 0, second := 0) == Gmtime(t).(hour := 0, minute := 0, second := 0)
                && Gmtime(s).hour < Gmtime(t).hour)
  {
    var a, b := Gmtime(s), Gmtime(t);
    GmtimeIsInverse(s);
    GmtimeIsInverse(t);
    assert s / 3600 == DayNumber(a) * 24 + a.hour;
    assert t / 3600 == DayNumber(b) * 24 + b.hour;
    if DateBefore(a, b) {
      DatesAscend(a, b);
    } else if DateBefore(b, a) {
      DatesAscend(b, a);
    }
  }

  // ------------------------------------------------------------ the Gregorian calendar

  /** Where the months of the year begin, in closed form. */
  lemma {:induction false} MonthStarts(y: int, m: nat)
    requires 1 <= m <= 12
    ensures DaysBeforeMonth(y, m) == (367 * m - 362) / 12 - (if m <= 2 then 0 else if Leap(y) then 1 else 2)
  {
    if m > 1 {
      MonthStarts(y, m - 1);
    }
  }

  /** Four hundred years are 146097 days, 97 of them leap days, and the count starts in 1970. */
  lemma YearStarts(y: int)
    ensures DaysBeforeYear(1970) == 0 && DaysBeforeYear(y + 400) == DaysBeforeYear(y) + 146097
    ensures DaysBeforeYear(y + 1) == DaysBeforeYear(y) + if Leap(y) then 366 else 365
  {
    hide Leap;
    NextYear(y);
    FourCenturies(y);
  }

  lemma FourCenturies(y: int)
    ensures DaysBeforeYear(y + 400) == DaysBeforeYear(y) + 146097
  {
    assert (y + 400 - 1969) / 4 == (y - 1969) / 4 + 100;
    assert (y + 400 - 1901) / 100 == (y - 1901) / 100 + 4;
    assert (y + 400 - 1601) / 400 == (y - 1601) / 400 + 1;
  }

  /** 2023-11-14 22:13:20 UTC. */
  lemma KnownInstant()
    ensures Gmtime(1_700_000_000) == Tm(2023, 11, 14, 22, 13, 20)
  {
    hide Gmtime;
    MonthStarts(2023, 11);
    GmtimeIsUnique(Tm(2023, 11, 14, 22, 13, 20));
  }

  /** Leap days of 2000 and 2024, and the first of March 2100, a year without one. */
  lemma KnownDays(day: nat)
    ensures day == 11016 ==> Gmtime(day * 86400) == Tm(2000, 2, 29, 0, 0, 0)
    ensures day == 19782 ==> Gmtime(day * 86400) == Tm(2024, 2, 29, 0, 0, 0)
    ensures day == 47541 ==> Gmtime(day * 86400) == Tm(2100, 3, 1, 0, 0, 0)
  {
    hide Gmtime, DaysBeforeMonth;
    MonthStarts(2000, 2);
    GmtimeIsUnique(Tm(2000, 2, 29, 0, 0, 0));
    MonthStarts(2024, 2);
    GmtimeIsUnique(Tm(2024, 2, 29, 0, 0, 0));
    MonthStarts(2100, 3);
    GmtimeIsUnique(Tm(2100, 3, 1, 0, 0, 0));
  }

  // ------------------------------------------------------- four-digit years

  const LAST_SECOND: int := DaysBeforeYear(10000) * 86400 - 1

  lemma FourDigitYear(sec: nat)
    ensures Gmtime(sec).year <= 9999 <==> sec <= LAST_SECOND
  {
    hide DaysBeforeMonth, MonthLength, YearLength, Leap;
    var y := Gmtime(sec).year;
    if y > 10000 {
      YearsAscend(10000, y);
    } else if y < 9999 {
      YearsAscend(y + 1, 10000);
    }
  }

  lemma YearStart(sec: nat)
    ensures DaysBeforeYear(Gmtime(sec).year) <= sec / 86400
  {
  }

  const LAST_HOUR := Tm(9999, 12, 31, 23, 59, 59)

  lemma LastHour()
    ensures ValidTm(LAST_HOUR) && Gmtime(LAST_SECOND) == LAST_HOUR
  {
    hide Gmtime;
    WholeYear(9999);
    NextYear(9999);
    GmtimeIsUnique(LAST_HOUR);
  }

  /** A signed 64-bit count of microseconds ends before the year 300000. */
  lemma YearOfMicroseconds(us: nat)
    requires us < 0x8000_0000_0000_0000
    ensures Gmtime(us / 1_000_000).year < 300000
  {
    hide DaysBeforeMonth, MonthLength, YearLength, Leap;
    var y := Gmtime(us / 1_000_000).year;
    assert DaysBeforeYear(y) <= us / 1_000_000 / 86400;
    if y > 300000 {
      YearsAscend(300000, y);
    }
  }
}
