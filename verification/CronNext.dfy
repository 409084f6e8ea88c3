/** SpecSchedule.Next finds the least matching second. */
module CronNext {
  import opened Options
  import opened Calendar
  import opened CronBits

  datatype SpecSchedule = SpecSchedule(second: bv64, minute: bv64, hour: bv64, dom: bv64, month: bv64, dow: bv64)

  predicate MonthMatches(s: SpecSchedule, t: Time)
    requires Valid(t)
  {
    Bit(s.month, t.month)
  }

  /** Day of month and day of week must both match if either field carries the star bit; otherwise one
      of them is enough. */
  predicate DayMatches(s: SpecSchedule, t: Time)
    requires Valid(t)
  {
    var domMatch := Bit(s.dom, t.day);
    var dowMatch := Bit(s.dow, Weekday(t));
    if s.dom & STAR_BIT != 0 || s.dow & STAR_BIT != 0 then domMatch && dowMatch else domMatch || dowMatch
  }

  predicate HourMatches(s: SpecSchedule, t: Time)
    requires Valid(t)
  {
    Bit(s.hour, t.hour)
  }

  predicate MinuteMatches(s: SpecSchedule, t: Time)
    requires Valid(t)
  {
    Bit(s.minute, t.minute)
  }

  predicate SecondMatches(s: SpecSchedule, t: Time)
    requires Valid(t)
  {
    Bit(s.second, t.second)
  }

  predicate Matches(s: SpecSchedule, t: Time)
    requires Valid(t)
  {
    MonthMatches(s, t) && DayMatches(s, t) && HourMatches(s, t) && MinuteMatches(s, t) && SecondMatches(s, t)
  }

  // ----- what the search keeps -----

  /** No second from a on, before b, matches. */
  ghost predicate NoneBetween(s: SpecSchedule, a: Time, b: Time) {
    forall u | Valid(u) && !Before(u, a) && Before(u, b) :: !Matches(s, u)
  }

  /** A field can be out of step only at the start of its period: the invariant that lets a re-entered
      outer loop advance without truncating again. */
  predicate CleanBoundary(s: SpecSchedule, t: Time)
    requires Valid(t)
  {
    if !MonthMatches(s, t) then t == StartOfMonth(t)
    else if !DayMatches(s, t) then t == StartOfDay(t)
    else if !HourMatches(s, t) then t == StartOfHour(t)
    else if !MinuteMatches(s, t) then t == StartOfMinute(t)
    else true
  }

  /** Nothing from start to t matches, and t is still the starting second or at a clean boundary. */
  ghost predicate Searching(s: SpecSchedule, start: Time, t: Time, added: bool) {
    && Valid(start) && Valid(t) && !Before(t, start)
    && NoneBetween(s, start, t)
    && (if added then CleanBoundary(s, t) else t == start)
  }

  /** The bounds of one pass of the outer loop: where the search began, the last year it looks at, and
      the time at which this pass began. */
  datatype Pass = Pass(start: Time, limit: int, head: Time)

  /** Holds in the loop over field k (0 month, 1 day, 2 hour, 3 minute, 4 second): the fields before
      it match. */
  ghost predicate AtField(k: nat, s: SpecSchedule, w: Pass, t: Time, added: bool) {
    && Searching(s, w.start, t, added) && Valid(w.head) && !Before(t, w.head) && t.year <= w.limit
    && (k >= 1 ==> MonthMatches(s, t)) && (k >= 2 ==> DayMatches(s, t))
    && (k >= 3 ==> HourMatches(s, t)) && (k >= 4 ==> MinuteMatches(s, t))
  }

  /** Seconds, rounded up, until the search gives up. */
  function Left(limit: int, t: Time): int {
    (((((limit + 1 - t.year) * 12 + 12 - t.month) * 32 + 31 - t.day) * 24 + 23 - t.hour) * 60 + 59 - t.minute) * 60
    + 59 - t.second
  }

  /** Holds at WRAP when a pass ends there: time has advanced, by at most into the next year. */
  ghost predicate Wrapped(s: SpecSchedule, w: Pass, t: Time) {
    Searching(s, w.start, t, true) && t.year <= w.limit + 1 && 0 <= Left(w.limit, t) < Left(w.limit, w.head)
  }

  /** If nothing in [t, u) matches, the search may move from t to u. */
  lemma Skip(s: SpecSchedule, w: Pass, t: Time, added: bool, u: Time)
    requires Searching(s, w.start, t, added) && Valid(w.head) && !Before(t, w.head) && t.year <= w.limit
    requires Valid(u) && Before(t, u) && u.year <= t.year + 1
    requires NoneBetween(s, t, u) && CleanBoundary(s, u)
    ensures Searching(s, w.start, u, true) && !Before(u, w.head)
    ensures Wrapped(s, w, u)
  {
    hide Matches, CleanBoundary;
    Closer(w.limit, w.head, u);
  }

  lemma Closer(limit: int, a: Time, b: Time)
    requires Valid(a) && Valid(b) && Before(a, b) && b.year <= limit + 1
    ensures 0 <= Left(limit, b) < Left(limit, a)
  {
  }

  // ----- one step of each loop -----

  lemma MonthStep(s: SpecSchedule, w: Pass, t: Time, added: bool)
    requires AtField(0, s, w, t, added) && !MonthMatches(s, t)
    ensures var u := AddMonth(if added then t else StartOfMonth(t));
            && Valid(u) && Wrapped(s, w, u)
            && (u.month != 1 ==> AtField(0, s, w, u, true) && t.month < u.month <= 12)
  {
    hide Bit, DayMatches, Left;
    var u := AddMonth(if added then t else StartOfMonth(t));
    assert u == StartOfMonth(u);
    assert NoneBetween(s, t, u) by {
      forall v | Valid(v) && !Before(v, t) && Before(v, u) ensures !Matches(s, v) {
        assert v.month == t.month;
      }
    }
    Skip(s, w, t, added, u);
  }

  lemma DayStep(s: SpecSchedule, w: Pass, t: Time, added: bool)
    requires AtField(1, s, w, t, added) && !DayMatches(s, t)
    ensures var u := AddDay(if added then t else StartOfDay(t));
            && Valid(u) && Wrapped(s, w, u)
            && (u.day != 1 ==> AtField(1, s, w, u, true) && t.day < u.day <= 31)
  {
    hide Bit, DaysBeforeYear, DaysBeforeMonth, Left;
    var u := AddDay(if added then t else StartOfDay(t));
    assert u == StartOfDay(u) && (u.month != t.month ==> u.day == 1);
    assert NoneBetween(s, t, u) by {
      forall v | Valid(v) && !Before(v, t) && Before(v, u) ensures !Matches(s, v) {
        assert v.year == t.year && v.month == t.month && v.day == t.day;
        assert DayMatches(s, v) == DayMatches(s, t);
      }
    }
    Skip(s, w, t, added, u);
  }

  lemma HourStep(s: SpecSchedule, w: Pass, t: Time, added: bool)
    requires AtField(2, s, w, t, added) && !HourMatches(s, t)
    ensures var u := AddHour(if added then t else StartOfHour(t));
            && Valid(u) && Wrapped(s, w, u)
            && (u.hour != 0 ==> AtField(2, s, w, u, true) && t.hour < u.hour <= 23)
  {
    hide Bit, DaysBeforeYear, DaysBeforeMonth, Left;
    var u := AddHour(if added then t else StartOfHour(t));
    assert NoneBetween(s, t, u) by {
      hide DayMatches;
      forall v | Valid(v) && !Before(v, t) && Before(v, u) ensures !Matches(s, v) {
        assert v.hour == t.hour;
      }
    }
    assert u.hour != 0 ==> Weekday(u) == Weekday(t);
    Skip(s, w, t, added, u);
  }

  lemma MinuteStep(s: SpecSchedule, w: Pass, t: Time, added: bool)
    requires AtField(3, s, w, t, added) && !MinuteMatches(s, t)
    ensures var u := AddMinute(if added then t else StartOfMinute(t));
            && Valid(u) && Wrapped(s, w, u)
            && (u.minute != 0 ==> AtField(3, s, w, u, true) && t.minute < u.minute <= 59)
  {
    hide Bit, DaysBeforeYear, DaysBeforeMonth, Left;
    var u := AddMinute(if added then t else StartOfMinute(t));
    assert NoneBetween(s, t, u) by {
      hide DayMatches;
      forall v | Valid(v) && !Before(v, t) && Before(v, u) ensures !Matches(s, v) {
        assert v.minute == t.minute;
      }
    }
    assert u.hour != 0 ==> Weekday(u) == Weekday(t);
    assert u.minute != 0 ==> Weekday(u) == Weekday(t);
    Skip(s, w, t, added, u);
  }

  lemma SecondStep(s: SpecSchedule, w: Pass, t: Time, added: bool)
    requires AtField(4, s, w, t, added) && !SecondMatches(s, t)
    ensures var u := AddSecond(t);
            && Valid(u) && Wrapped(s, w, u)
            && (u.second != 0 ==> AtField(4, s, w, u, true) && t.second < u.second <= 59)
  {
    hide Bit, DaysBeforeYear, DaysBeforeMonth, Left;
    var u := AddSecond(t);
    assert NoneBetween(s, t, u) by {
      hide DayMatches;
      forall v | Valid(v) && !Before(v, t) && Before(v, u) ensures !Matches(s, v) {
        assert v == t;
      }
    }
    assert u.hour != 0 ==> Weekday(u) == Weekday(t);
    assert u.second != 0 || u.minute != 0 ==> Weekday(u) == Weekday(t);
    Skip(s, w, t, added, u);
  }

  // ----- entering and leaving the search -----

  function YearLimit(t0: Time): int {
    AddSecond(t0).year + 5
  }

  lemma SearchStarts(s: SpecSchedule, t0: Time)
    requires Valid(t0)
    ensures Valid(AddSecond(t0)) && Searching(s, AddSecond(t0), AddSecond(t0), false)
    ensures 0 <= Left(YearLimit(t0), AddSecond(t0))
  {
    AddSecondElapses(t0);
  }

  lemma PassStarts(s: SpecSchedule, w: Pass, added: bool)
    requires Searching(s, w.start, w.head, added) && w.head.year <= w.limit
    ensures AtField(0, s, w, w.head, added)
  {
  }

  lemma FieldBounds(t: Time)
    requires Valid(t)
    ensures t.month <= 12 && t.day <= 31 && t.hour <= 23 && t.minute <= 59 && t.second <= 59
  {
  }

  /** Field k matches, so the loop over field k + 1 begins. */
  lemma NextField(k: nat, s: SpecSchedule, w: Pass, t: Time, added: bool)
    requires AtField(k, s, w, t, added) && k < 4
    requires k == 0 ==> MonthMatches(s, t)
    requires k == 1 ==> DayMatches(s, t)
    requires k == 2 ==> HourMatches(s, t)
    requires k == 3 ==> MinuteMatches(s, t)
    ensures AtField(k + 1, s, w, t, added)
  {
  }

  /** A second is after t0 exactly when it is not before the second following t0. */
  lemma AfterIsFromNext(t0: Time, u: Time)
    requires Valid(t0) && Valid(u)
    ensures Before(t0, u) <==> !Before(u, AddSecond(t0))
  {
    AddSecondElapses(t0);
    BeforeIffUnix(t0, u);
    BeforeIffUnix(u, AddSecond(t0));
  }

  /** r is the least second after t0 that matches. */
  ghost predicate IsLeastAfter(s: SpecSchedule, t0: Time, r: Time) {
    && Valid(r) && Before(t0, r) && Matches(s, r)
    && forall u | Valid(u) && Before(t0, u) && Before(u, r) :: !Matches(s, u)
  }

  ghost predicate NoneAfterUpTo(s: SpecSchedule, t0: Time, year: int) {
    forall u | Valid(u) && Before(t0, u) && u.year <= year :: !Matches(s, u)
  }

  lemma Found(s: SpecSchedule, t0: Time, w: Pass, t: Time, added: bool)
    requires Valid(t0) && w.start == AddSecond(t0) && AtField(4, s, w, t, added) && SecondMatches(s, t)
    ensures IsLeastAfter(s, t0, t) && t.year <= w.limit && !NoneAfterUpTo(s, t0, w.limit)
  {
    hide Bit, DayMatches, AddSecond;
    AfterIsFromNext(t0, t);
    forall u | Valid(u) && Before(t0, u) && Before(u, t) ensures !Matches(s, u) {
      AfterIsFromNext(t0, u);
    }
  }

  lemma GivenUp(s: SpecSchedule, t0: Time, t: Time, added: bool, limit: int)
    requires Valid(t0) && Searching(s, AddSecond(t0), t, added) && t.year > limit
    ensures NoneAfterUpTo(s, t0, limit)
  {
    hide Matches, AddSecond;
    forall u | Valid(u) && Before(t0, u) && u.year <= limit ensures !Matches(s, u) {
      AfterIsFromNext(t0, u);
    }
  }

  /** SpecSchedule.Next, with t0 the given instant rounded down to its second and None the zero time.
      It returns the least matching second after t0 up to the end of the fifth calendar year after that of the
      second following t0, and None exactly when there is none. It terminates for every six bit sets. */
  method Next(s: SpecSchedule, t0: Time) returns (r: Option<Time>)
    requires Valid(t0)
    ensures r.Some? ==> IsLeastAfter(s, t0, r.value) && r.value.year <= AddSecond(t0).year + 5
    ensures r.None? <==> NoneAfterUpTo(s, t0, AddSecond(t0).year + 5)
  {
    hide Valid, MonthMatches, DayMatches, HourMatches, MinuteMatches, SecondMatches;
    hide Searching, AtField, Left, IsLeastAfter, NoneAfterUpTo;
    hide AddSecond, AddMinute, AddHour, AddDay, AddMonth;
    SearchStarts(s, t0);
    var t := AddSecond(t0);
    var added := false;
    var yearLimit := t.year + 5;
    ghost var start := t;
    label WRAP:
    while true
      invariant Valid(t) && Searching(s, start, t, added) && 0 <= Left(yearLimit, t)
      decreases Left(yearLimit, t)
    {
      if t.year > yearLimit {
        GivenUp(s, t0, t, added, yearLimit);
        return None;
      }
      ghost var w := Pass(start, yearLimit, t);
      PassStarts(s, w, added);
      FieldBounds(t);
      while !MonthMatches(s, t)
        invariant Valid(t) && AtField(0, s, w, t, added) && t.month <= 12
        decreases 12 - t.month
      {
        MonthStep(s, w, t, added);
        if !added {
          added := true;
          t := StartOfMonth(t);
        }
        t := AddMonth(t);
        if t.month == 1 {
          continue WRAP;
        }
      }
      NextField(0, s, w, t, added);
      FieldBounds(t);
      while !DayMatches(s, t)
        invariant Valid(t) && AtField(1, s, w, t, added) && t.day <= 31
        decreases 31 - t.day
      {
        DayStep(s, w, t, added);
        if !added {
          added := true;
          t := StartOfDay(t);
        }
        t := AddDay(t);
        if t.day == 1 {
          continue WRAP;
        }
      }
      NextField(1, s, w, t, added);
      FieldBounds(t);
      while !HourMatches(s, t)
        invariant Valid(t) && AtField(2, s, w, t, added) && t.hour <= 23
        decreases 23 - t.hour
      {
        HourStep(s, w, t, added);
        if !added {
          added := true;
          t := StartOfHour(t);
        }
        t := AddHour(t);
        if t.hour == 0 {
          continue WRAP;
        }
      }
      NextField(2, s, w, t, added);
      FieldBounds(t);
      while !MinuteMatches(s, t)
        invariant Valid(t) && AtField(3, s, w, t, added) && t.minute <= 59
        decreases 59 - t.minute
      {
        MinuteStep(s, w, t, added);
        if !added {
          added := true;
          t := StartOfMinute(t);
        }
        t := AddMinute(t);
        if t.minute == 0 {
          continue WRAP;
        }
      }
      NextField(3, s, w, t, added);
      FieldBounds(t);
      while !SecondMatches(s, t)
        invariant Valid(t) && AtField(4, s, w, t, added) && t.second <= 59
        decreases 59 - t.second
      {
        SecondStep(s, w, t, added);
        added := true;
        t := AddSecond(t);
        if t.second == 0 {
          continue WRAP;
        }
      }
      Found(s, t0, w, t, added);
      return Some(t);
    }
  }
}
