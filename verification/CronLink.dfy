/** SpecSchedule.Next is a schedule of the kind the scheduler's accounting theorem is about, so that theorem
    speaks of the texts that entries were added with. */
module CronLink {
  import opened Options
  import opened Calendar
  import opened CronNext
  import opened CronParser
  import opened CronMeaning
  import CronDelay
  import CronRun

  /** What the contract of Next says of the result r, in seconds since the epoch, for the second n. */
  ghost predicate NextContract(s: SpecSchedule, n: int, r: Option<int>) {
    exists t0 :: Valid(t0) && Unix(t0) == n && ContractAt(s, t0, r)
  }

  ghost predicate ContractAt(s: SpecSchedule, t0: Time, r: Option<int>) {
    match r
    case None => NoneAfterUpTo(s, t0, YearLimit(t0))
    case Some(m) => exists u :: IsLeastAfter(s, t0, u) && Unix(u) == m && u.year <= YearLimit(t0)
  }

  lemma YearLimitGrows(a: Time, b: Time)
    requires Valid(a) && Valid(b) && !Before(b, a)
    ensures YearLimit(a) <= YearLimit(b)
  {
    AddSecondElapses(a);
    AddSecondElapses(b);
    BeforeIffUnix(b, a);
    BeforeIffUnix(AddSecond(b), AddSecond(a));
  }

  /** The least match after t is still the least match after every later second before it. */
  lemma StaysLeast(s: SpecSchedule, t: Time, u: Time, v: Time)
    requires Valid(t) && Valid(v) && IsLeastAfter(s, t, u) && !Before(v, t) && Before(v, u)
    ensures IsLeastAfter(s, v, u)
  {
    hide Matches;
  }

  lemma LeastIsUnique(s: SpecSchedule, t: Time, u: Time, w: Time)
    requires IsLeastAfter(s, t, u) && IsLeastAfter(s, t, w)
    ensures u == w
  {
    hide Matches;
    assert !Before(u, w) && !Before(w, u);
  }

  /** Any function that meets the contract of Next meets the scheduler's. */
  lemma NextIsLeast(s: SpecSchedule, f: CronRun.NextFn)
    requires forall n :: NextContract(s, n, f(n))
    ensures CronRun.Least(f)
  {
    forall n | f(n).Some? ensures n < f(n).value {
      assert NextContract(s, n, f(n));
      var t :| Valid(t) && Unix(t) == n && ContractAt(s, t, f(n));
      var u :| IsLeastAfter(s, t, u) && Unix(u) == f(n).value && u.year <= YearLimit(t);
      BeforeIffUnix(t, u);
    }
    forall n, m | f(n).Some? && n <= m < f(n).value ensures f(m) == f(n) {
      SameNext(s, f, n, m);
    }
  }

  lemma SameNext(s: SpecSchedule, f: CronRun.NextFn, n: int, m: int)
    requires NextContract(s, n, f(n)) && NextContract(s, m, f(m))
    requires f(n).Some? && n <= m < f(n).value
    ensures f(m) == f(n)
  {
    hide Matches, Unix, YearLimit;
    var t :| Valid(t) && Unix(t) == n && ContractAt(s, t, f(n));
    var u :| IsLeastAfter(s, t, u) && Unix(u) == f(n).value && u.year <= YearLimit(t);
    var v :| Valid(v) && Unix(v) == m && ContractAt(s, v, f(m));
    BeforeIffUnix(v, t);
    BeforeIffUnix(v, u);
    StaysLeast(s, t, u, v);
    YearLimitGrows(t, v);
    if f(m).Some? {
      var w :| IsLeastAfter(s, v, w) && Unix(w) == f(m).value && w.year <= YearLimit(v);
      LeastIsUnique(s, v, u, w);
    }
  }

  // ----- there is such a function -----

  /** Below a match after t there is a least one. */
  lemma {:induction false} LeastExists(s: SpecSchedule, t: Time, u: Time) returns (w: Time)
    requires Valid(t) && Valid(u) && Before(t, u) && Matches(s, u)
    ensures IsLeastAfter(s, t, w) && w.year <= u.year
    decreases Unix(u) - Unix(t)
  {
    hide Matches, Unix;
    if IsLeastAfter(s, t, u) {
      w := u;
    } else {
      var v :| Valid(v) && Before(t, v) && Before(v, u) && Matches(s, v);
      BeforeIffUnix(v, u);
      BeforeIffUnix(t, v);
      BeforeIffUnix(t, u);
      w := LeastExists(s, t, v);
    }
  }

  lemma NextExists(s: SpecSchedule, n: int)
    ensures exists r :: NextContract(s, n, r)
  {
    hide Matches, Unix, YearLimit;
    var t0 := EverySecondHasATime(n);
    if NoneAfterUpTo(s, t0, YearLimit(t0)) {
      assert ContractAt(s, t0, None);
      assert NextContract(s, n, None);
    } else {
      var u :| Valid(u) && Before(t0, u) && u.year <= YearLimit(t0) && Matches(s, u);
      var w := LeastExists(s, t0, u);
      assert ContractAt(s, t0, Some(Unix(w)));
      assert NextContract(s, n, Some(Unix(w)));
    }
  }

  /** What Next answers at the second n. */
  ghost function NextSec(s: SpecSchedule, n: int): (r: Option<int>)
    ensures NextContract(s, n, r)
  {
    NextExists(s, n);
    var r :| NextContract(s, n, r);
    r
  }

  /** The schedule of an entry made from a compiled specification. */
  ghost function SpecNext(s: SpecSchedule): CronRun.NextFn {
    n => NextSec(s, n)
  }

  lemma SpecNextIsLeast(s: SpecSchedule)
    ensures CronRun.Least(SpecNext(s))
  {
    NextIsLeast(s, SpecNext(s));
  }

  /** The activations of the schedule are exactly the seconds that match. */
  lemma ActivationIffMatches(s: SpecSchedule, u: Time)
    requires Valid(u)
    ensures CronRun.Activation(SpecNext(s), Unix(u)) <==> Matches(s, u)
  {
    hide Matches, Unix;
    var r := NextSec(s, Unix(u) - 1);
    var t0 :| Valid(t0) && Unix(t0) == Unix(u) - 1 && ContractAt(s, t0, r);
    BeforeIffUnix(t0, u);
    AddSecondElapses(t0);
    BeforeIffUnix(u, AddSecond(t0));
    assert u == AddSecond(t0);
    if r.Some? {
      var w :| IsLeastAfter(s, t0, w) && Unix(w) == r.value && w.year <= YearLimit(t0);
      BeforeIffUnix(w, u);
      BeforeIffUnix(t0, w);
    }
  }

  /** Whatever the method Next returns at t0 is what NextSec stands for. */
  lemma NextSecIsNext(s: SpecSchedule, t0: Time, r: Option<Time>)
    requires Valid(t0)
    requires r.Some? ==> IsLeastAfter(s, t0, r.value) && r.value.year <= YearLimit(t0)
    requires r.None? ==> NoneAfterUpTo(s, t0, YearLimit(t0))
    ensures NextSec(s, Unix(t0)) == if r.None? then None else Some(Unix(r.value))
  {
    hide Matches, Unix, YearLimit;
    var got := NextSec(s, Unix(t0));
    var t :| Valid(t) && Unix(t) == Unix(t0) && ContractAt(s, t, got);
    BeforeIffUnix(t, t0);
    if got.Some? {
      var u :| IsLeastAfter(s, t0, u) && Unix(u) == got.value && u.year <= YearLimit(t0);
      if r.Some? {
        LeastIsUnique(s, t0, u, r.value);
      }
    }
  }

  lemma GivesUpIff(s: SpecSchedule, c: Time)
    requires Valid(c)
    ensures NextSec(s, Unix(c)).None? <==> NoneAfterUpTo(s, c, YearLimit(c))
  {
    hide Matches, Unix, YearLimit;
    var got := NextSec(s, Unix(c));
    var t :| Valid(t) && Unix(t) == Unix(c) && ContractAt(s, t, got);
    BeforeIffUnix(t, c);
    if got.Some? {
      var u :| IsLeastAfter(s, c, u) && Unix(u) == got.value && u.year <= YearLimit(c);
    }
  }

  // ----- a text and the scheduler, end to end -----

  /** The entry was compiled from the text. */
  ghost predicate FromText(e: CronRun.Entry, s: SpecSchedule, p: Parser, text: string) {
    ValidParser(p) && CompiledSpec(s, p, text) && e.schedule == SpecNext(s)
  }

  /** Over every run, an entry compiled from a text is started only for seconds the text means, never early.
      Of the seconds the text means since the entry joined, exactly those up to the last computation of Next
      were started or were already past when the start before them happened; and all those before Next. */
  lemma RunFollowsText(es: seq<CronRun.Entry>, start: int, events: seq<CronRun.Event>, e: CronRun.Entry,
                       s: SpecSchedule, p: Parser, text: string, u: Time)
    requires CronRun.AllLater(es, events) && e in CronRun.After(es, start, events)
    requires FromText(e, s, p, text) && Valid(u)
    ensures forall i | 0 <= i < |e.runs| && e.runs[i].activation == Unix(u) ::
              TextMatches(p, text, u) && e.joined < Unix(u) <= e.runs[i].at
    ensures e.next == Some(Unix(u)) ==> TextMatches(p, text, u)
    ensures TextMatches(p, text, u) && e.joined < Unix(u) ==>
              && (CronRun.FiredOrPast(e.runs, Unix(u)) <==> Unix(u) <= CronRun.LastComputed(e))
              && (e.next.Some? && Unix(u) < e.next.value ==> CronRun.FiredOrPast(e.runs, Unix(u)))
  {
    hide Matches, TextMatches, CompiledSpec, Unix, CronRun.FiredOrPast, CronRun.Least, CronRun.Activation;
    CronRun.RunIsGood(es, start, events);
    assert CronRun.Good(e);
    CronRun.GoodMeans(e, Unix(u));
    SpecNextIsLeast(s);
    forall i | 0 <= i < |e.runs| ensures CronRun.Activation(e.schedule, e.runs[i].activation) {
      CronRun.GoodFires(e, i);
    }
    ActivationIffMatches(s, u);
    CompiledMatches(s, p, text, u);
  }

  /** After a timer event, with c the second at which Next was last computed: a second the text means that has
      come is missed exactly when it is later than c, and then only because the text means no second after c
      up to the year limit of c. */
  lemma MissedIffGivenUp(es: seq<CronRun.Entry>, start: int, events: seq<CronRun.Event>, e: CronRun.Entry,
                         s: SpecSchedule, p: Parser, text: string, c: Time, u: Time)
    requires CronRun.AllLater(es, events) && CronRun.EndsInTimer(events) && e in CronRun.After(es, start, events)
    requires FromText(e, s, p, text) && Valid(c) && Unix(c) == CronRun.LastComputed(e)
    requires Valid(u) && TextMatches(p, text, u) && e.joined < Unix(u) <= CronRun.LastNow(events)
    ensures !CronRun.FiredOrPast(e.runs, Unix(u)) <==> Before(c, u)
    ensures Before(c, u) ==>
              forall v | Valid(v) && Before(c, v) && v.year <= YearLimit(c) :: !TextMatches(p, text, v)
  {
    hide Matches, TextMatches, CompiledSpec, Unix, YearLimit, CronRun.FiredOrPast, CronRun.Least, CronRun.Activation;
    SpecNextIsLeast(s);
    ActivationIffMatches(s, u);
    CompiledMatches(s, p, text, u);
    CronRun.MissedIff(es, start, events, e, Unix(u));
    BeforeIffUnix(c, u);
    GivesUpIff(s, c);
    forall v | Valid(v) ensures Matches(s, v) <==> TextMatches(p, text, v) {
      CompiledMatches(s, p, text, v);
    }
  }

  /** From the second n on, whenever the text still means a later second it means one within the year limit. */
  ghost predicate NoTextGap(p: Parser, text: string, n: int)
    requires ValidParser(p)
  {
    forall c, u | Valid(c) && Valid(u) && n <= Unix(c) && Before(c, u) && TextMatches(p, text, u) ::
      ReachesOne(p, text, c)
  }

  ghost predicate ReachesOne(p: Parser, text: string, c: Time)
    requires ValidParser(p)
  {
    exists v :: Valid(v) && Before(c, v) && v.year <= YearLimit(c) && TextMatches(p, text, v)
  }

  lemma ReachesOneIff(s: SpecSchedule, p: Parser, text: string, c: Time)
    requires ValidParser(p) && CompiledSpec(s, p, text) && Valid(c)
    ensures ReachesOne(p, text, c) <==> NextSec(s, Unix(c)).Some?
  {
    hide Matches, TextMatches, CompiledSpec, Unix, YearLimit;
    GivesUpIff(s, c);
    forall v | Valid(v) ensures Matches(s, v) <==> TextMatches(p, text, v) {
      CompiledMatches(s, p, text, v);
    }
  }

  lemma NoGapIffText(s: SpecSchedule, p: Parser, text: string, n: int)
    requires ValidParser(p) && CompiledSpec(s, p, text)
    ensures CronRun.NoGap(SpecNext(s), n) <==> NoTextGap(p, text, n)
  {
    hide Matches, TextMatches, CompiledSpec, Unix, ReachesOne, CronRun.Activation;
    if CronRun.NoGap(SpecNext(s), n) {
      forall c, u | Valid(c) && Valid(u) && n <= Unix(c) && Before(c, u) && TextMatches(p, text, u)
        ensures ReachesOne(p, text, c)
      {
        CompiledMatches(s, p, text, u);
        ActivationIffMatches(s, u);
        BeforeIffUnix(c, u);
        ReachesOneIff(s, p, text, c);
        assert SpecNext(s)(Unix(c)).Some?;
      }
    }
    if NoTextGap(p, text, n) {
      forall c, a | n <= c < a && CronRun.Activation(SpecNext(s), a) ensures SpecNext(s)(c).Some? {
        var t := EverySecondHasATime(c);
        var u := EverySecondHasATime(a);
        CompiledMatches(s, p, text, u);
        ActivationIffMatches(s, u);
        BeforeIffUnix(t, u);
        ReachesOneIff(s, p, text, t);
      }
    }
  }

  /** The exact condition, in terms of the text alone: from wherever a run has got to, every continuation
      starts or finds past every second the text means, if and only if the text has no gap from the last
      computation of Next on. */
  lemma TextNeverMissesIff(es: seq<CronRun.Entry>, start: int, events: seq<CronRun.Event>, i: nat,
                           s: SpecSchedule, p: Parser, text: string)
    requires CronRun.AllLater(es, events) && i < |CronRun.After(es, start, events)|
    requires FromText(CronRun.After(es, start, events)[i], s, p, text)
    ensures CronRun.NeverMisses(es, start, events, i) <==>
            NoTextGap(p, text, CronRun.LastComputed(CronRun.After(es, start, events)[i]))
  {
    hide CompiledSpec, CronRun.NeverMisses, CronRun.NoGap, NoTextGap, CronRun.Least;
    SpecNextIsLeast(s);
    CronRun.NeverMissesIff(es, start, events, i);
    NoGapIffText(s, p, text, CronRun.LastComputed(CronRun.After(es, start, events)[i]));
  }

  // ----- `@every` -----

  /** The schedule of an entry made from a delay in nanoseconds, in seconds. */
  function DelayNext(delay: int): CronRun.NextFn {
    n => Some(CronDelay.Next(delay, n * CronDelay.SECOND) / CronDelay.SECOND)
  }

  lemma DelayNextIs(duration: int, n: int)
    ensures DelayNext(CronDelay.Every(duration))(n) == Some(n + CronDelay.Every(duration) / CronDelay.SECOND)
    ensures CronDelay.Every(duration) / CronDelay.SECOND >= 1
  {
    CronDelay.NextIsOnTheSecond(duration, n * CronDelay.SECOND);
  }

  lemma DelayIsLater(duration: int)
    ensures CronRun.Later(DelayNext(CronDelay.Every(duration)))
  {
    hide CronDelay.Next, CronDelay.Every;
    forall n ensures DelayNext(CronDelay.Every(duration))(n).value > n {
      DelayNextIs(duration, n);
    }
  }

  /** Over every run, an `@every` entry always has a Next, and each start is due exactly the delay after the
      start before it happened, so that starts are never closer than the delay and never counted twice. */
  lemma RunKeepsDelay(es: seq<CronRun.Entry>, start: int, events: seq<CronRun.Event>, e: CronRun.Entry,
                      duration: int)
    requires CronRun.AllLater(es, events) && e in CronRun.After(es, start, events)
    requires e.schedule == DelayNext(CronDelay.Every(duration))
    ensures var d := CronDelay.Every(duration) / CronDelay.SECOND;
            && e.next == Some(CronRun.LastComputed(e) + d)
            && (forall i | 0 <= i < |e.runs| :: CronRun.ComputedAt(e, i) + d == e.runs[i].activation <= e.runs[i].at)
  {
    hide CronDelay.Next, CronDelay.Every, DelayNext, CronRun.Bounded, CronRun.Accounted, CronRun.After;
    hide CronRun.Least, CronRun.ComputedAt;
    CronRun.RunIsGood(es, start, events);
    DelayNextIs(duration, CronRun.LastComputed(e));
    forall i | 0 <= i < |e.runs|
      ensures e.runs[i].activation == CronRun.ComputedAt(e, i) + CronDelay.Every(duration) / CronDelay.SECOND
    {
      assert CronRun.ChainedAt(e, i);
      DelayNextIs(duration, CronRun.ComputedAt(e, i));
    }
  }

  // ----- texts without a gap -----

  ghost predicate MeansInYear(p: Parser, text: string, y: int)
    requires ValidParser(p)
  {
    exists u :: Valid(u) && u.year == y && TextMatches(p, text, u)
  }

  /** A text that means a second of every year has a Next after every second, in the same calendar year or
      the one after. */
  lemma YearlyHasNext(s: SpecSchedule, p: Parser, text: string, t0: Time) returns (u: Time)
    requires ValidParser(p) && CompiledSpec(s, p, text) && Valid(t0) && forall y :: MeansInYear(p, text, y)
    ensures Valid(u) && NextSec(s, Unix(t0)) == Some(Unix(u)) && Before(t0, u) && u.year <= t0.year + 1
  {
    hide Matches, TextMatches, CompiledSpec, Unix, Valid, NextSec;
    assert MeansInYear(p, text, t0.year + 1);
    var v :| Valid(v) && v.year == t0.year + 1 && TextMatches(p, text, v);
    CompiledMatches(s, p, text, v);
    u := LeastExists(s, t0, v);
    AddSecondElapses(t0);
    BeforeIffUnix(AddSecond(t0), t0);
    NextSecIsNext(s, t0, Some(u));
  }

  /** So no run ever misses a second it means. */
  lemma YearlyHasNoGap(p: Parser, text: string, n: int)
    requires ValidParser(p) && forall y :: MeansInYear(p, text, y)
    ensures NoTextGap(p, text, n)
  {
    hide TextMatches, Unix, Valid;
    forall c, u | Valid(c) && Valid(u) && n <= Unix(c) && Before(c, u) && TextMatches(p, text, u)
      ensures ReachesOne(p, text, c)
    {
      assert MeansInYear(p, text, c.year + 1);
      var v :| Valid(v) && v.year == c.year + 1 && TextMatches(p, text, v);
      AddSecondElapses(c);
      BeforeIffUnix(AddSecond(c), c);
    }
  }

  /** The first Sunday of a year. */
  lemma FirstSunday(y: int) returns (u: Time)
    ensures Valid(u) && u.year == y && u == StartOfDay(u) && Weekday(u) == 0
  {
    hide DaysBeforeYear;
    u := Time(y, 1, 1, 0, 0, 0);
    var first := DayNumber(u);
    if Weekday(u) != 0 {
      u := Time(y, 1, 8 - first % 7, 0, 0, 0);
      assert DayNumber(u) == first + 7 - first % 7 == 7 * (first / 7 + 1);
    }
  }

  /** The descriptors are such texts. */
  lemma DescriptorsAreYearly(p: Parser, d: string, y: int)
    requires ValidParser(p) && p.descriptors
    requires d in ["@yearly", "@annually", "@monthly", "@weekly", "@daily", "@midnight", "@hourly"]
    ensures MeansInYear(p, d, y)
  {
    hide TextMatches, Weekday;
    var u := Time(y, 1, 1, 0, 0, 0);
    if d == "@weekly" {
      u := FirstSunday(y);
    }
    DescriptorsMean(p, u);
    assert TextMatches(p, d, u);
  }
}
