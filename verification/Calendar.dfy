/** Whole seconds of the proleptic Gregorian calendar in UTC, as the Go time package presents them. */
module Calendar {
  datatype Time = Time(year: int, month: int, day: int, hour: int, minute: int, second: int)

  /** Appendix C of RFC 3339. */
  predicate Leap(y: int) {
    y % 4 == 0 && (y % 100 != 0 || y % 400 == 0)
  }

  function DaysIn(y: int, m: int): (n: int)
    ensures 28 <= n <= 31
  {
    if m == 2 then (if Leap(y) then 29 else 28)
    else if m == 4 || m == 6 || m == 9 || m == 11 then 30 else 31
  }

  predicate Valid(t: Time) {
    && 1 <= t.month <= 12 && 1 <= t.day <= DaysIn(t.year, t.month)
    && 0 <= t.hour < 24 && 0 <= t.minute < 60 && 0 <= t.second < 60
  }

  function DaysBeforeYear(y: int): int {
    365 * (y - 1) + (y - 1) / 4 - (y - 1) / 100 + (y - 1) / 400
  }

  function DaysBeforeMonth(y: int, m: int): int
    requires 1 <= m <= 13
    decreases m
  {
    if m == 1 then 0 else DaysBeforeMonth(y, m - 1) + DaysIn(y, m - 1)
  }

  /** Day 1 is Monday, the first of January of the year 1. */
  function DayNumber(t: Time): int
    requires Valid(t)
  {
    DaysBeforeYear(t.year) + DaysBeforeMonth(t.year, t.month) + t.day
  }

  /** Sunday is 0. */
  function Weekday(t: Time): (w: int)
    requires Valid(t)
    ensures 0 <= w < 7
  {
    DayNumber(t) % 7
  }

  /** Seconds since 1970-01-01T00:00:00Z. */
  function Unix(t: Time): int
    requires Valid(t)
  {
    86400 * (DayNumber(t) - 719163) + 3600 * t.hour + 60 * t.minute + t.second
  }

  // ----- the operations of package time that Next uses -----

  function StartOfMonth(t: Time): Time {
    t.(day := 1, hour := 0, minute := 0, second := 0)
  }

  function StartOfDay(t: Time): Time {
    t.(hour := 0, minute := 0, second := 0)
  }

  function StartOfHour(t: Time): Time {
    t.(minute := 0, second := 0)
  }

  function StartOfMinute(t: Time): Time {
    t.(second := 0)
  }

  /** AddDate(0, 1, 0): a day past the end of the next month spills into the month after it. */
  function AddMonth(t: Time): Time {
    var u := if t.month == 12 then t.(year := t.year + 1, month := 1) else t.(month := t.month + 1);
    if u.day <= DaysIn(u.year, u.month) then u
    else u.(month := u.month + 1, day := u.day - DaysIn(u.year, u.month))
  }

  /** AddDate(0, 0, 1). */
  function AddDay(t: Time): Time {
    if t.day < DaysIn(t.year, t.month) then t.(day := t.day + 1)
    else if t.month < 12 then t.(month := t.month + 1, day := 1)
    else t.(year := t.year + 1, month := 1, day := 1)
  }

  function AddHour(t: Time): Time {
    if t.hour < 23 then t.(hour := t.hour + 1) else AddDay(t.(hour := 0))
  }

  function AddMinute(t: Time): Time {
    if t.minute < 59 then t.(minute := t.minute + 1) else AddHour(t.(minute := 0))
  }

  function AddSecond(t: Time): Time {
    if t.second < 59 then t.(second := t.second + 1) else AddMinute(t.(second := 0))
  }

  // ----- calendar fields against elapsed seconds -----

  /** A quotient grows by one exactly at the multiples of the divisor. */
  lemma QuotientStep(y: int, n: int)
    requires n == 4 || n == 100 || n == 400
    ensures y / n - (y - 1) / n == if y % n == 0 then 1 else 0
  {
  }

  lemma LeapMultiples(y: int)
    ensures y % 400 == 0 ==> y % 100 == 0
    ensures y % 100 == 0 ==> y % 4 == 0
  {
  }

  lemma YearLength(y: int)
    ensures DaysBeforeYear(y + 1) == DaysBeforeYear(y) + (if Leap(y) then 366 else 365)
  {
    QuotientStep(y, 4);
    QuotientStep(y, 100);
    QuotientStep(y, 400);
    LeapMultiples(y);
  }

  lemma MonthsFillYear(y: int)
    ensures DaysBeforeMonth(y, 13) == if Leap(y) then 366 else 365
  {
    assert DaysBeforeMonth(y, 4) == 59 + (if Leap(y) then 1 else 0) + 31;
    assert DaysBeforeMonth(y, 7) == DaysBeforeMonth(y, 4) + 91;
    assert DaysBeforeMonth(y, 10) == DaysBeforeMonth(y, 7) + 92;
  }

  /** The next calendar day is 86400 seconds later, over month ends, leap days and year ends alike. */
  lemma AddDayElapses(t: Time)
    requires Valid(t)
    ensures Valid(AddDay(t)) && Unix(AddDay(t)) == Unix(t) + 86400
  {
    if t.day == DaysIn(t.year, t.month) && t.month == 12 {
      YearLength(t.year);
      MonthsFillYear(t.year);
    }
  }

  lemma AddHourElapses(t: Time)
    requires Valid(t)
    ensures Valid(AddHour(t)) && Unix(AddHour(t)) == Unix(t) + 3600
  {
    AddDayElapses(t.(hour := 0));
    hide AddDay, DaysBeforeYear, DaysBeforeMonth, DaysIn;
  }

  lemma AddMinuteElapses(t: Time)
    requires Valid(t)
    ensures Valid(AddMinute(t)) && Unix(AddMinute(t)) == Unix(t) + 60
  {
    AddHourElapses(t.(minute := 0));
    hide AddHour, DaysBeforeYear, DaysBeforeMonth, DaysIn;
  }

  lemma AddSecondElapses(t: Time)
    requires Valid(t)
    ensures Valid(AddSecond(t)) && Unix(AddSecond(t)) == Unix(t) + 1
  {
    AddMinuteElapses(t.(second := 0));
    hide AddMinute, DaysBeforeYear, DaysBeforeMonth, DaysIn;
  }

  // ----- known instants -----

  /** The epoch, second zero, is the start of 1970, a Thursday. */
  lemma Epoch(t: Time)
    requires Valid(t) && t.year == 1970 && t.month == 1 && t.day == 1
    ensures Unix(t) == 3600 * t.hour + 60 * t.minute + t.second && Weekday(t) == 4
  {
    assert DaysBeforeMonth(t.year, 1) == 0;
    assert DayNumber(t) == 719163;
  }

  /** A February has 29 days in the years divisible by 4, except for the centuries not divisible by 400. */
  lemma LeapDayIff(y: int)
    ensures Valid(Time(y, 2, 29, 0, 0, 0)) <==> y % 4 == 0 && (y % 100 == 0 ==> y % 400 == 0)
  {
  }

  /** The day of the year on which each month begins, in a year without a leap day. */
  lemma MonthsBegin(m: int)
    requires 1 <= m <= 12
    ensures DaysBeforeMonth(2023, m) == [0, 31, 59, 90, 120, 151, 181, 212, 243, 273, 304, 334][m - 1]
  {
    assert DaysBeforeMonth(2023, 1) == 0;
    assert DaysBeforeMonth(2023, 4) == 90;
    assert DaysBeforeMonth(2023, 7) == 181;
    assert DaysBeforeMonth(2023, 10) == 273;
  }

  // ----- the order of calendar times -----

  predicate Before(a: Time, b: Time) {
    || a.year < b.year
    || (a.year == b.year &&
        (|| a.month < b.month
         || (a.month == b.month &&
             (|| a.day < b.day
              || (a.day == b.day &&
                  (|| a.hour < b.hour
                   || (a.hour == b.hour &&
                       (a.minute < b.minute || (a.minute == b.minute && a.second < b.second)))))))))
  }

  lemma {:induction false} MonthsMonotone(y: int, a: int, b: int)
    requires 1 <= a < b <= 13
    ensures DaysBeforeMonth(y, a) + DaysIn(y, a) <= DaysBeforeMonth(y, b)
    decreases b
  {
    if a + 1 < b {
      MonthsMonotone(y, a, b - 1);
    }
  }

  lemma {:induction false} YearsMonotone(a: int, b: int)
    requires a < b
    ensures DaysBeforeYear(a) + (if Leap(a) then 366 else 365) <= DaysBeforeYear(b)
    decreases b - a
  {
    if a + 1 < b {
      YearsMonotone(a, b - 1);
      YearLength(b - 1);
    } else {
      YearLength(a);
    }
  }

  lemma BeforeElapses(a: Time, b: Time)
    requires Valid(a) && Valid(b) && Before(a, b)
    ensures Unix(a) < Unix(b)
  {
    if a.year < b.year {
      YearsMonotone(a.year, b.year);
      MonthsFillYear(a.year);
      MonthsMonotone(a.year, a.month, 13);
      if b.month > 1 {
        MonthsMonotone(b.year, 1, b.month);
      }
      assert DayNumber(a) < DayNumber(b);
    } else if a.month < b.month {
      MonthsMonotone(a.year, a.month, b.month);
      assert DayNumber(a) < DayNumber(b);
    }
  }

  /** Comparing the six fields is comparing elapsed seconds. */
  lemma BeforeIffUnix(a: Time, b: Time)
    requires Valid(a) && Valid(b)
    ensures Before(a, b) <==> Unix(a) < Unix(b)
    ensures Unix(a) == Unix(b) ==> a == b
  {
    if Before(a, b) {
      BeforeElapses(a, b);
    } else if Before(b, a) {
      BeforeElapses(b, a);
    }
  }

  /** Every elapsed second is some calendar time. */
  lemma {:induction false} EverySecondHasATime(n: int) returns (t: Time)
    ensures Valid(t) && Unix(t) == n
  {
    var y := if n < 0 then 1970 + n else 1970;
    t := Time(y, 1, 1, 0, 0, 0);
    YearsBack(y, 1970);
    t := SecondsLater(t, n - Unix(t));
  }

  lemma {:induction false} YearsBack(a: int, b: int)
    requires a <= b
    ensures DaysBeforeYear(a) + (b - a) <= DaysBeforeYear(b)
    decreases b - a
  {
    if a < b {
      YearsBack(a, b - 1);
      YearLength(b - 1);
    }
  }

  lemma {:induction false} SecondsLater(t: Time, n: nat) returns (u: Time)
    requires Valid(t)
    ensures Valid(u) && Unix(u) == Unix(t) + n
  {
    u := t;
    if n > 0 {
      u := SecondsLater(t, n - 1);
      AddSecondElapses(u);
      u := AddSecond(u);
    }
  }
}
