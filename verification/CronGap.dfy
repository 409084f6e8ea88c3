/** A text with a gap longer than the search of Next: midnight of a 29 February that falls on a Sunday, a
    Wednesday or a Saturday. */
module CronGap {
  import opened Options
  import opened Calendar
  import opened CronBits
  import opened CronText
  import opened CronNext
  import opened CronParser
  import opened CronMeaning
  import opened CronLink
  import CronRun

  const TEXT := "0 0 0 29 2 */3"
  const PIECES := ["0", "0", "0", "29", "2", "*/3"]

  const RANGES := [Range(0, 0, 1, false), Range(0, 0, 1, false), Range(0, 0, 1, false), Range(29, 29, 1, false),
                   Range(2, 2, 1, false), Range(0, 6, 3, true)]

  /** The first such midnight after 2020. */
  const LEAP_SUNDAY := Time(2032, 2, 29, 0, 0, 0)

  // ----- reading the text -----

  lemma JoinedPieces()
    ensures Join(PIECES, ' ') == TEXT
  {
    assert PIECES[1..] == ["0", "0", "29", "2", "*/3"];
    assert PIECES[1..][1..] == ["0", "29", "2", "*/3"];
    assert PIECES[1..][1..][1..] == ["29", "2", "*/3"];
    assert PIECES[1..][1..][1..][1..] == ["2", "*/3"];
    assert PIECES[1..][1..][1..][1..][1..] == ["*/3"];
  }

  lemma EveryThird()
    ensures RangeOf("*/3", DOW) == Ok(Range(0, 6, 3, true))
  {
    hide Atoi;
    SplitFirst("*", '/', "3");
    SplitWhole("3", '/');
    SplitWhole("*", '-');
    assert Decimal(3) == "3";
    AtoiDecimal(3);
    assert "*" + ['/'] + "3" == "*/3";
  }

  lemma Ranges()
    ensures HaveRanges(PIECES, RANGES)
  {
    hide RangeOf, Accepted;
    EveryThird();
    MidnightPlaces();
    assert Decimal(2) == "2" && Decimal(29) == Decimal(2) + "9" == "29";
    assert BOUNDS[3] == DOM && BOUNDS[4] == MONTHS && BOUNDS[5] == DOW;
    NumberMeans(3, 29);
    NumberMeans(4, 2);
  }

  /** The text is accepted, and means midnight of each 29 February on a Sunday, Wednesday or Saturday. */
  lemma TextMeans(p: Parser, u: Time)
    requires ValidParser(p) && SixPlaces(p) && Valid(u)
    ensures InGrammar(p, TEXT)
    ensures TextMatches(p, TEXT, u) <==> u.month == 2 && u.day == 29 && u == StartOfDay(u) && Weekday(u) % 3 == 0
  {
    hide InGrammar, TextMatches, Weekday, Join, HaveRanges;
    JoinedPieces();
    Ranges();
    ItemsMean(p, PIECES, RANGES, u);
  }

  // ----- the gap -----

  lemma LeapDays(u: Time)
    requires Valid(u) && u.month == 2 && u.day == 29 && 2021 <= u.year <= 2032
    ensures u.year == 2024 || u.year == 2028 || u.year == 2032
    ensures Weekday(u) == if u.year == 2024 then 4 else if u.year == 2028 then 2 else 0
  {
    assert DaysBeforeMonth(u.year, 1) == 0;
    assert DaysBeforeMonth(u.year, 2) == 31;
  }

  /** From any second of the years 2021 to 2026 the search gives up, although the text means a second of 2032. */
  lemma GapFrom(p: Parser, start: Time)
    requires ValidParser(p) && SixPlaces(p) && Valid(start) && 2021 <= start.year && AddSecond(start).year <= 2026
    ensures Valid(LEAP_SUNDAY) && TextMatches(p, TEXT, LEAP_SUNDAY) && Before(start, LEAP_SUNDAY)
    ensures !ReachesOne(p, TEXT, start)
  {
    hide TextMatches, Weekday;
    LeapDays(LEAP_SUNDAY);
    TextMeans(p, LEAP_SUNDAY);
    if ReachesOne(p, TEXT, start) {
      var v :| Valid(v) && Before(start, v) && v.year <= YearLimit(start) && TextMatches(p, TEXT, v);
      TextMeans(p, v);
      LeapDays(v);
    }
  }

  /** Whatever happens after the loop has started in one of those seconds, an entry with this text never gets
      a Next and is never started. */
  lemma LeapSundayIsMissed(p: Parser, s: SpecSchedule, es: seq<CronRun.Entry>, i: nat, start: Time,
                           events: seq<CronRun.Event>)
    requires SixPlaces(p) && i < |es| && FromText(es[i], s, p, TEXT) && CronRun.AllLater(es, events)
    requires Valid(start) && 2021 <= start.year && AddSecond(start).year <= 2026
    ensures |CronRun.After(es, Unix(start), events)| > i
    ensures CronRun.After(es, Unix(start), events)[i].next.None?
    ensures CronRun.After(es, Unix(start), events)[i].runs == []
  {
    hide CompiledSpec, TextMatches, ReachesOne, Unix, AddSecond, CronRun.Later;
    GapFrom(p, start);
    ReachesOneIff(s, p, TEXT, start);
    assert [] + events == events;
    CronRun.RestExtends(es, Unix(start), [], events, i);
  }
}
