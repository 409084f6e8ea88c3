/** The event loop of Cron: which entries fire, when, and which activations are passed over. */
module CronRun {
  import opened Options

  /** Schedule.Next: the next activation after an instant, None for the zero time. */
  type NextFn = int -> Option<int>

  /** A firing: the activation it stands for and the clock reading at which the job was started. */
  datatype Firing = Firing(activation: int, at: int)

  /** An entry, with the clock reading at which the current run first computed its Next and the
      firings of that run in order. */
  datatype Entry = Entry(schedule: NextFn, next: Option<int>, prev: Option<int>, joined: int, runs: seq<Firing>)

  /** What the Schedule interface promises. */
  ghost predicate Later(f: NextFn) {
    forall t :: f(t).Some? ==> t < f(t).value
  }

  /** What holds in addition when Next is the least element after t of a fixed set of activations. */
  ghost predicate Least(f: NextFn) {
    Later(f) && forall t, u :: f(t).Some? && t <= u < f(t).value ==> f(u) == f(t)
  }

  predicate Activation(f: NextFn, a: int) {
    f(a - 1) == Some(a)
  }

  // ----- what a run has done with one entry -----

  ghost predicate InOrder(runs: seq<Firing>) {
    && (forall i | 0 <= i < |runs| :: runs[i].activation <= runs[i].at)
    && (forall i, j | 0 <= i < j < |runs| :: runs[i].at < runs[j].activation)
  }

  /** An activation was fired, or was already past when the firing before it was handled. */
  ghost predicate FiredOrPast(runs: seq<Firing>, a: int) {
    exists i :: 0 <= i < |runs| && runs[i].activation <= a <= runs[i].at
  }

  /** The clock reading at which the i-th firing's activation was computed: that of the firing before it, or
      of the joining. */
  function ComputedAt(e: Entry, i: nat): int
    requires i <= |e.runs|
  {
    if i == 0 then e.joined else e.runs[i - 1].at
  }

  /** The clock reading at which Next was last computed. */
  function LastComputed(e: Entry): int {
    ComputedAt(e, |e.runs|)
  }

  /** What was fired is what the schedule gave at the firing before. */
  ghost predicate Chained(e: Entry) {
    forall i: nat | i < |e.runs| :: ChainedAt(e, i)
  }

  predicate ChainedAt(e: Entry, i: nat)
    requires i < |e.runs|
  {
    e.schedule(ComputedAt(e, i)) == Some(e.runs[i].activation)
  }

  /** The firings lie between the joining and the last computation of Next. */
  ghost predicate Bounded(e: Entry) {
    forall i | 0 <= i < |e.runs| :: e.joined < e.runs[i].activation && e.runs[i].at <= LastComputed(e)
  }

  /** Every activation from the joining up to the last computation of Next was fired or was past. */
  ghost predicate Accounted(e: Entry) {
    forall a | Activation(e.schedule, a) && e.joined < a <= LastComputed(e) :: FiredOrPast(e.runs, a)
  }

  /** No firing was early, no activation was fired twice, Prev is the run's last firing, what was fired is what
      the schedule gave at the firing before, and Next is what it gave at the last; and if the schedule has
      fixed activations, all of them are accounted for up to the last computation of Next. */
  ghost predicate Good(e: Entry) {
    && Later(e.schedule)
    && InOrder(e.runs) && Chained(e) && Bounded(e)
    && (e.runs != [] ==> e.prev == Some(e.runs[|e.runs| - 1].activation))
    && e.next == e.schedule(LastComputed(e))
    && (Least(e.schedule) ==> Accounted(e))
  }

  lemma GoodOrder(e: Entry)
    requires Good(e)
    ensures e.joined <= LastComputed(e)
    ensures e.next.Some? ==> LastComputed(e) < e.next.value
  {
    hide Chained, Accounted, Least;
  }

  /** What follows for Next and for the activations the entry has not got to. */
  lemma GoodMeans(e: Entry, a: int)
    requires Good(e)
    ensures a > LastComputed(e) ==> !FiredOrPast(e.runs, a)
    ensures Least(e.schedule) && e.next.Some? ==> Activation(e.schedule, e.next.value)
    ensures Least(e.schedule) && e.next.Some? && Activation(e.schedule, a) && e.joined < a < e.next.value ==>
              FiredOrPast(e.runs, a)
  {
    hide InOrder, Chained, Least;
    if Least(e.schedule) && e.next.Some? {
      NoneBeforeNext(e.schedule, LastComputed(e));
    }
  }

  /** If the schedule has fixed activations, nothing else was fired. */
  lemma GoodFires(e: Entry, i: nat)
    requires Good(e) && Least(e.schedule) && i < |e.runs|
    ensures Activation(e.schedule, e.runs[i].activation)
  {
    hide InOrder, Bounded, Accounted;
    assert ChainedAt(e, i);
    NoneBeforeNext(e.schedule, ComputedAt(e, i));
  }

  predicate Due(e: Entry, now: int) {
    e.next.Some? && e.next.value <= now
  }

  function Fired(e: Entry, now: int): Entry
    requires e.next.Some?
  {
    e.(runs := e.runs + [Firing(e.next.value, now)], prev := e.next, next := e.schedule(now))
  }

  function Joined(e: Entry, now: int): Entry {
    e.(next := e.schedule(now), joined := now, runs := [])
  }

  /** Between an instant and the activation computed from it there is no other. */
  lemma NoneBeforeNext(f: NextFn, t: int)
    requires Least(f) && f(t).Some?
    ensures Activation(f, f(t).value)
    ensures forall a | t < a < f(t).value :: !Activation(f, a)
  {
    assert f(f(t).value - 1) == f(t);
    forall a | t < a < f(t).value ensures !Activation(f, a) {
      assert f(a - 1) == f(t);
    }
  }

  lemma JoinedIsGood(e: Entry, now: int)
    requires Later(e.schedule)
    ensures Good(Joined(e, now))
  {
  }

  /** A firing accounts for every activation up to its clock reading. */
  lemma FiringAccounts(e: Entry, now: int, a: int)
    requires Good(e) && Due(e, now) && Least(e.schedule)
    requires Activation(e.schedule, a) && e.joined < a <= now
    ensures FiredOrPast(Fired(e, now).runs, a)
  {
    hide InOrder, Chained, Bounded, Least, Activation;
    var runs := Fired(e, now).runs;
    assert forall i | 0 <= i < |e.runs| :: runs[i] == e.runs[i];
    assert runs[|e.runs|] == Firing(e.next.value, now);
    if a <= LastComputed(e) {
      var i :| 0 <= i < |e.runs| && e.runs[i].activation <= a <= e.runs[i].at;
      assert runs[i].activation <= a <= runs[i].at;
    } else {
      NoneBeforeNext(e.schedule, LastComputed(e));
    }
  }

  lemma FiringChains(e: Entry, now: int)
    requires Good(e) && Due(e, now)
    ensures Chained(Fired(e, now)) && LastComputed(Fired(e, now)) == now
  {
    hide InOrder, Bounded, Accounted, Least, Later;
    var n := Fired(e, now);
    forall i: nat | i < |n.runs| ensures ChainedAt(n, i) {
      assert i < |e.runs| ==> ChainedAt(e, i);
    }
  }

  lemma FiringOrders(e: Entry, now: int)
    requires Good(e) && Due(e, now)
    ensures InOrder(Fired(e, now).runs) && Bounded(Fired(e, now))
  {
    hide Chained, Accounted, Least;
    GoodOrder(e);
    var n := Fired(e, now);
    assert n.runs[|e.runs|] == Firing(e.next.value, now);
  }

  lemma FiringKeepsGood(e: Entry, now: int)
    requires Good(e) && Due(e, now)
    ensures Good(Fired(e, now))
    ensures Fired(e, now).next.Some? ==> Fired(e, now).next.value > now
  {
    hide InOrder, Chained, Bounded, FiredOrPast, Least;
    FiringChains(e, now);
    FiringOrders(e, now);
    if Least(e.schedule) {
      forall a | Activation(e.schedule, a) && e.joined < a <= now ensures FiredOrPast(Fired(e, now).runs, a) {
        FiringAccounts(e, now, a);
      }
    }
  }

  // ----- byTime -----

  predicate Less(a: Entry, b: Entry) {
    a.next.Some? && (b.next.None? || a.next.value < b.next.value)
  }

  ghost predicate Sorted(es: seq<Entry>) {
    forall i, j | 0 <= i < j < |es| :: !Less(es[j], es[i])
  }

  lemma InsertSorted(r: seq<Entry>, x: Entry, k: nat)
    requires Sorted(r) && k <= |r| && (k > 0 ==> !Less(x, r[k - 1]))
    requires forall i | k <= i < |r| :: Less(x, r[i])
    ensures Sorted(r[..k] + [x] + r[k..])
  {
    forall i | 0 <= i < k ensures !Less(x, r[i]) {
      assert i < k - 1 ==> !Less(r[k - 1], r[i]);
    }
    assert forall i | k <= i < |r| :: !Less(r[i], x);
    hide Less;
    var s := r[..k] + [x] + r[k..];
    assert forall i | 0 <= i < k :: s[i] == r[i];
    assert forall i | k < i < |s| :: s[i] == r[i - 1];
    forall i, j | 0 <= i < j < |s| ensures !Less(s[j], s[i]) {
    }
  }

  lemma InsertKeepsElements(r: seq<Entry>, x: Entry, k: nat)
    requires k <= |r|
    ensures multiset(r[..k] + [x] + r[k..]) == multiset(r) + multiset{x}
  {
    assert r == r[..k] + r[k..];
  }

  /** sort.Sort(byTime(entries)), here by insertion. */
  method SortByTime(es: seq<Entry>) returns (r: seq<Entry>)
    ensures Sorted(r) && multiset(r) == multiset(es)
  {
    r := [];
    assert es[..0] == [];
    for n := 0 to |es|
      invariant Sorted(r) && multiset(r) == multiset(es[..n])
    {
      var k := |r|;
      while k > 0 && Less(es[n], r[k - 1])
        invariant 0 <= k <= |r|
        invariant forall i | k <= i < |r| :: Less(es[n], r[i])
      {
        k := k - 1;
      }
      InsertSorted(r, es[n], k);
      InsertKeepsElements(r, es[n], k);
      assert es[..n + 1] == es[..n] + [es[n]];
      r := r[..k] + [es[n]] + r[k..];
    }
    assert es[..|es|] == es;
  }

  // ----- a run without sorting -----

  /** What the inner select of run receives before a stop: a timer tick, a new entry, a snapshot request. */
  datatype Event = Timer(now: int) | Add(schedule: NextFn, now: int) | Snapshot

  function NewEntry(f: NextFn): Entry {
    Entry(f, None, None, 0, [])
  }

  function FireIfDue(e: Entry, now: int): Entry {
    if Due(e, now) then Fired(e, now) else e
  }

  function FireAll(es: seq<Entry>, now: int): (r: seq<Entry>)
    ensures |r| == |es| && forall i | 0 <= i < |es| :: r[i] == FireIfDue(es[i], now)
  {
    seq(|es|, i requires 0 <= i < |es| => FireIfDue(es[i], now))
  }

  function JoinAll(es: seq<Entry>, now: int): (r: seq<Entry>)
    ensures |r| == |es| && forall i | 0 <= i < |es| :: r[i] == Joined(es[i], now)
  {
    seq(|es|, i requires 0 <= i < |es| => Joined(es[i], now))
  }

  /** What one event does to the entries. */
  function Handle(es: seq<Entry>, e: Event): seq<Entry> {
    match e
    case Timer(now) => FireAll(es, now)
    case Add(f, now) => es + [Joined(NewEntry(f), now)]
    case Snapshot => es
  }

  /** The entries after a list of events, in the order they were added. */
  function After(es: seq<Entry>, start: int, events: seq<Event>): seq<Entry> {
    if events == [] then JoinAll(es, start)
    else Handle(After(es, start, events[..|events| - 1]), events[|events| - 1])
  }

  ghost predicate AllLater(es: seq<Entry>, events: seq<Event>) {
    && (forall e | e in es :: Later(e.schedule))
    && (forall i | 0 <= i < |events| && events[i].Add? :: Later(events[i].schedule))
  }

  /** Over every run, each entry's history is in order and accounts for its activations, and right
      after a timer event every nonzero Next is later than the clock reading. */
  lemma {:induction false} RunIsGood(es: seq<Entry>, start: int, events: seq<Event>)
    requires AllLater(es, events)
    ensures forall e | e in After(es, start, events) :: Good(e)
    ensures events != [] && events[|events| - 1].Timer? ==>
              forall e | e in After(es, start, events) && e.next.Some? :: e.next.value > events[|events| - 1].now
  {
    hide Good;
    var after := After(es, start, events);
    if events == [] {
      forall i | 0 <= i < |after| ensures Good(after[i]) {
        assert es[i] in es;
        JoinedIsGood(es[i], start);
      }
    } else {
      var n := |events| - 1;
      RunIsGood(es, start, events[..n]);
      var before := After(es, start, events[..n]);
      match events[n]
      case Timer(now) =>
        forall i | 0 <= i < |after| ensures Good(after[i]) && (after[i].next.Some? ==> after[i].next.value > now) {
          assert before[i] in before;
          if Due(before[i], now) {
            FiringKeepsGood(before[i], now);
          }
        }
      case Add(f, now) => JoinedIsGood(NewEntry(f), now);
      case Snapshot =>
    }
  }

  /** A run adds entries and drops none, changes no schedule, and touches the Prev of an entry, which may
      date from an earlier run, only by firing it. */
  lemma {:induction false} RunKeepsEntries(es: seq<Entry>, start: int, events: seq<Event>)
    ensures |es| <= |After(es, start, events)|
    ensures forall i | 0 <= i < |es| ::
              var e := After(es, start, events)[i];
              e.schedule == es[i].schedule && (e.runs == [] ==> e.prev == es[i].prev)
  {
    if events != [] {
      RunKeepsEntries(es, start, events[..|events| - 1]);
    }
  }

  // ----- who is in the list -----

  function Adds(events: seq<Event>): nat {
    if events == [] then 0 else Adds(events[..|events| - 1]) + if events[|events| - 1].Add? then 1 else 0
  }

  /** Every added entry is in the list, and nothing else is added or dropped. */
  lemma {:induction false} EntriesCounted(es: seq<Entry>, start: int, events: seq<Event>)
    ensures |After(es, start, events)| == |es| + Adds(events)
  {
    if events != [] {
      EntriesCounted(es, start, events[..|events| - 1]);
    }
  }

  /** An entry that was there at the start joined at the start, with the Next its schedule gives there, and
      from then on its history only grows. */
  lemma FirstEntries(es: seq<Entry>, start: int, events: seq<Event>, i: nat)
    requires AllLater(es, events) && i < |es|
    ensures i < |After(es, start, events)|
    ensures Extends(Entry(es[i].schedule, es[i].schedule(start), es[i].prev, start, []), After(es, start, events)[i])
  {
    assert [] + events == events;
    RestExtends(es, start, [], events, i);
  }

  /** The entry of the k-th event, an Add, comes behind those there were. It joined at the clock reading of that
      event, with the Next its schedule gives there, and from then on its history only grows. */
  lemma AddedEntry(es: seq<Entry>, start: int, events: seq<Event>, k: nat)
    requires AllLater(es, events) && k < |events| && events[k].Add?
    ensures var i, f, now := |es| + Adds(events[..k]), events[k].schedule, events[k].now;
            && i < |After(es, start, events[..k + 1])| && i < |After(es, start, events)|
            && After(es, start, events[..k + 1])[i] == Entry(f, f(now), None, now, [])
            && Extends(Entry(f, f(now), None, now, []), After(es, start, events)[i])
  {
    var now, rest := events[..k + 1], events[k + 1..];
    assert now[..k] == events[..k] && now + rest == events;
    EntriesCounted(es, start, events[..k]);
    RestExtends(es, start, now, rest, |es| + Adds(events[..k]));
  }

  /** A timer event fires exactly the entries whose nonzero Next is not later than the clock reading, once
      each, for that Next and at that reading. */
  lemma TimerFires(es: seq<Entry>, start: int, events: seq<Event>, now: int, i: nat)
    requires i < |After(es, start, events)|
    ensures i < |After(es, start, events + [Timer(now)])|
    ensures var e, later := After(es, start, events)[i], After(es, start, events + [Timer(now)])[i];
            match e.next
            case None => later == e
            case Some(due) =>
              if due > now then later == e
              else later == Entry(e.schedule, e.schedule(now), Some(due), e.joined, e.runs + [Firing(due, now)])
  {
    AfterOneMore(es, start, events, Timer(now));
  }

  // ----- what a run misses -----

  predicate EndsInTimer(events: seq<Event>) {
    events != [] && events[|events| - 1].Timer?
  }

  function LastNow(events: seq<Event>): int
    requires EndsInTimer(events)
  {
    events[|events| - 1].now
  }

  /** After a timer event, an activation that has come is missed exactly when it is later than the last
      computation of Next; and then that computation gave up. */
  lemma MissedIff(es: seq<Entry>, start: int, events: seq<Event>, e: Entry, a: int)
    requires AllLater(es, events) && EndsInTimer(events) && e in After(es, start, events) && Least(e.schedule)
    requires Activation(e.schedule, a) && e.joined < a <= LastNow(events)
    ensures !FiredOrPast(e.runs, a) <==> LastComputed(e) < a
    ensures LastComputed(e) < a ==> e.next.None? && e.schedule(LastComputed(e)).None?
  {
    hide FiredOrPast, InOrder, Chained, Bounded;
    RunIsGood(es, start, events);
    GoodOrder(e);
    GoodMeans(e, a);
  }

  lemma AfterOneMore(es: seq<Entry>, start: int, events: seq<Event>, e: Event)
    ensures After(es, start, events + [e]) == Handle(After(es, start, events), e)
  {
    assert (events + [e])[..|events|] == events;
  }

  /** The history of an entry goes on, or stays as it is if Next is the zero time. */
  ghost predicate Extends(e: Entry, later: Entry) {
    && later.schedule == e.schedule && later.joined == e.joined && e.runs <= later.runs
    && LastComputed(e) <= LastComputed(later)
    && (e.next.None? ==> later == e)
  }

  lemma EventExtends(es: seq<Entry>, x: Event, i: nat)
    requires i < |es| && Good(es[i])
    ensures i < |Handle(es, x)| && Extends(es[i], Handle(es, x)[i])
  {
    hide InOrder, Chained, Bounded, Accounted, Least;
    GoodOrder(es[i]);
  }

  lemma ExtendsTwice(a: Entry, b: Entry, c: Entry)
    requires Extends(a, b) && Extends(b, c)
    ensures Extends(a, c)
  {
    hide LastComputed;
  }

  /** The rest of a run extends the history of an entry, and an entry whose Next is the zero time stays as
      it is. */
  lemma {:induction false} RestExtends(es: seq<Entry>, start: int, events: seq<Event>, more: seq<Event>, i: nat)
    requires AllLater(es, events + more) && i < |After(es, start, events)|
    ensures i < |After(es, start, events + more)|
    ensures Extends(After(es, start, events)[i], After(es, start, events + more)[i])
  {
    hide After, Handle, Good;
    if more == [] {
      assert events + more == events;
    } else {
      var n := |more| - 1;
      var init, x := events + more[..n], more[n];
      assert events + more == init + [x];
      assert forall k | 0 <= k < |init| :: init[k] == (events + more)[k];
      RestExtends(es, start, events, more[..n], i);
      AfterOneMore(es, start, init, x);
      RunIsGood(es, start, init);
      EventExtends(After(es, start, init), x, i);
      ExtendsTwice(After(es, start, events)[i], After(es, start, init)[i], After(es, start, events + more)[i]);
    }
  }

  /** Of the activations since the entry joined, none that has come is missed. */
  ghost predicate NothingMissed(es: seq<Entry>, start: int, events: seq<Event>, i: nat)
    requires EndsInTimer(events) && i < |After(es, start, events)|
  {
    var e := After(es, start, events)[i];
    forall a | Activation(e.schedule, a) && e.joined < a <= LastNow(events) :: FiredOrPast(e.runs, a)
  }

  /** From t on, Next does not give up while an activation is still to come. */
  ghost predicate NoGap(f: NextFn, t: int) {
    forall c, a | t <= c < a && Activation(f, a) :: f(c).Some?
  }

  /** However an entry has got where it is, no continuation of the run misses an activation of it. */
  ghost predicate NeverMisses(es: seq<Entry>, start: int, events: seq<Event>, i: nat)
    requires i < |After(es, start, events)|
  {
    forall more | AllLater(es, events + more) && EndsInTimer(events + more) ::
      i < |After(es, start, events + more)| && NothingMissed(es, start, events + more, i)
  }

  /** The exact condition, in terms of the schedule alone: an entry that is to be computed from its last
      computation on misses nothing in any continuation if and only if its schedule has no gap from there. */
  lemma NeverMissesIff(es: seq<Entry>, start: int, events: seq<Event>, i: nat)
    requires AllLater(es, events) && i < |After(es, start, events)| && Least(After(es, start, events)[i].schedule)
    ensures var e := After(es, start, events)[i];
            NeverMisses(es, start, events, i) <==> NoGap(e.schedule, LastComputed(e))
  {
    var e := After(es, start, events)[i];
    if NoGap(e.schedule, LastComputed(e)) {
      forall more | AllLater(es, events + more) && EndsInTimer(events + more)
        ensures i < |After(es, start, events + more)| && NothingMissed(es, start, events + more, i)
      {
        NoGapMissesNothing(es, start, events, more, i);
      }
    } else {
      var c, a :| LastComputed(e) <= c < a && Activation(e.schedule, a) && e.schedule(c).None?;
      GapMisses(es, start, events, i, c, a);
    }
  }

  lemma NoGapMissesNothing(es: seq<Entry>, start: int, events: seq<Event>, more: seq<Event>, i: nat)
    requires AllLater(es, events + more) && EndsInTimer(events + more) && i < |After(es, start, events)|
    requires var e := After(es, start, events)[i]; Least(e.schedule) && NoGap(e.schedule, LastComputed(e))
    ensures i < |After(es, start, events + more)| && NothingMissed(es, start, events + more, i)
  {
    hide FiredOrPast, Least, Activation;
    RestExtends(es, start, events, more, i);
    var later := After(es, start, events + more)[i];
    forall a | Activation(later.schedule, a) && later.joined < a <= LastNow(events + more)
      ensures FiredOrPast(later.runs, a)
    {
      MissedIff(es, start, events + more, later, a);
    }
  }

  /** If Next gives up at c, a timer event at c leaves the entry with a zero Next and nothing behind c. */
  lemma GivesUpAt(e: Entry, c: int, a: int)
    requires Good(e) && Least(e.schedule) && LastComputed(e) <= c < a && e.schedule(c).None?
    ensures var later := FireIfDue(FireIfDue(e, c), a);
            && later.schedule == e.schedule && later.joined == e.joined < a && !FiredOrPast(later.runs, a)
  {
    hide FiredOrPast, InOrder, Chained, Bounded, Accounted;
    GoodOrder(e);
    GoodMeans(e, a);
    if Due(e, c) {
      FiringKeepsGood(e, c);
      GoodMeans(Fired(e, c), a);
    } else {
      assert e.next.Some? ==> e.schedule(c) == e.next;
    }
  }

  /** If Next gives up at c although a is still to come, a timer event at c and one at a miss a. */
  lemma GapMisses(es: seq<Entry>, start: int, events: seq<Event>, i: nat, c: int, a: int)
    requires AllLater(es, events) && i < |After(es, start, events)|
    requires var e := After(es, start, events)[i];
             && Least(e.schedule) && LastComputed(e) <= c < a && Activation(e.schedule, a) && e.schedule(c).None?
    ensures !NeverMisses(es, start, events, i)
  {
    hide After, Good, FiredOrPast, Least, Activation;
    var e := After(es, start, events)[i];
    RunIsGood(es, start, events);
    GivesUpAt(e, c, a);
    var once, more := events + [Timer(c)], [Timer(c), Timer(a)];
    assert events + more == once + [Timer(a)];
    AfterOneMore(es, start, events, Timer(c));
    AfterOneMore(es, start, once, Timer(a));
    assert !NothingMissed(es, start, events + more, i);
    assert AllLater(es, events + more);
  }

  lemma FireAllConcat(a: seq<Entry>, b: seq<Entry>, now: int)
    ensures FireAll(a + b, now) == FireAll(a, now) + FireAll(b, now)
  {
  }

  /** Taking one element out of two permuted sequences leaves permuted sequences. */
  lemma RemoveSame<T>(a: seq<T>, b: seq<T>) returns (k: nat)
    requires a != [] && multiset(a) == multiset(b)
    ensures k < |b| && b[k] == a[|a| - 1]
    ensures multiset(a[..|a| - 1]) == multiset(b[..k] + b[k + 1..])
  {
    var n := |a| - 1;
    var x := a[n];
    assert a == a[..n] + [x];
    assert x in multiset(b);
    k :| 0 <= k < |b| && b[k] == x;
    assert b == b[..k] + [x] + b[k + 1..];
    calc {
      multiset(a[..n]);
      multiset(a) - multiset{x};
      multiset(b) - multiset{x};
      multiset(b[..k]) + multiset(b[k + 1..]);
    }
  }

  /** Firing does not depend on the order of the entries. */
  lemma {:induction false} FireAllPermutes(a: seq<Entry>, b: seq<Entry>, now: int)
    requires multiset(a) == multiset(b)
    ensures multiset(FireAll(a, now)) == multiset(FireAll(b, now))
  {
    if a == [] {
      assert |b| == |multiset(b)| == 0;
    } else {
      var n := |a| - 1;
      var k := RemoveSame(a, b);
      var x, u, v := a[n], b[..k], b[k + 1..];
      FireAllPermutes(a[..n], u + v, now);
      hide FireAll;
      assert a == a[..n] + [x] && b == u + [x] + v;
      FireAllConcat(a[..n], [x], now);
      FireAllConcat(u + [x], v, now);
      FireAllConcat(u, [x], now);
      FireAllConcat(u, v, now);
    }
  }

  // ----- the loop -----

  function Snapshots(events: seq<Event>): nat {
    if events == [] then 0 else Snapshots(events[..|events| - 1]) + if events[|events| - 1].Snapshot? then 1 else 0
  }

  lemma {:induction false} SnapshotsGrow(events: seq<Event>, i: nat)
    requires i < |events| && events[i].Snapshot?
    ensures Snapshots(events[..i]) < Snapshots(events)
  {
    var n := |events| - 1;
    if i < n {
      assert events[..n][..i] == events[..i];
      SnapshotsGrow(events[..n], i);
    }
  }

  /** There is one snapshot for each request, in order, and up to order it is the list of the run that never
      sorts as it was at the request. */
  ghost predicate SameSnapshots(es: seq<Entry>, start: int, events: seq<Event>, got: seq<seq<Entry>>) {
    && |got| == Snapshots(events)
    && forall i: nat | i < |events| && events[i].Snapshot? :: SameSnapshot(es, start, events, i, got)
  }

  ghost predicate SameSnapshot(es: seq<Entry>, start: int, events: seq<Event>, i: nat, got: seq<seq<Entry>>)
    requires i < |events|
  {
    var k := Snapshots(events[..i]);
    k < |got| && multiset(got[k]) == multiset(After(es, start, events[..i]))
  }

  /** d is the earliest nonzero Next, or none if there is none. */
  ghost predicate Earliest(d: Option<int>, es: multiset<Entry>) {
    match d
    case None => forall e | e in es :: e.next.None?
    case Some(t) => (exists e | e in es :: e.next == d) && forall e | e in es && e.next.Some? :: t <= e.next.value
  }

  /** At every select the timer is armed for the earliest nonzero Next of the entries as they then are. */
  ghost predicate ArmedAt(es: seq<Entry>, start: int, events: seq<Event>, armed: seq<Option<int>>, i: nat)
    requires i < |armed|
  {
    i <= |events| && Earliest(armed[i], multiset(After(es, start, events[..i])))
  }

  ghost predicate AllArmed(es: seq<Entry>, start: int, events: seq<Event>, armed: seq<Option<int>>) {
    forall i: nat | i < |armed| :: ArmedAt(es, start, events, armed, i)
  }

  lemma OneMoreArmed(es: seq<Entry>, start: int, events: seq<Event>, armed: seq<Option<int>>, d: Option<int>,
                     now: seq<Entry>)
    requires AllArmed(es, start, events, armed) && |armed| <= |events| && Earliest(d, multiset(now))
    requires multiset(now) == multiset(After(es, start, events[..|armed|]))
    ensures AllArmed(es, start, events, armed + [d])
  {
    hide After, Earliest;
    forall k: nat | k < |armed| + 1 ensures ArmedAt(es, start, events, armed + [d], k) {
      assert k < |armed| ==> ArmedAt(es, start, events, armed, k);
    }
  }

  lemma OneMoreSnapshot(es: seq<Entry>, start: int, events: seq<Event>, n: nat, got: seq<seq<Entry>>, now: seq<Entry>)
    requires n < |events| && SameSnapshots(es, start, events[..n], got)
    requires multiset(now) == multiset(After(es, start, events[..n]))
    ensures SameSnapshots(es, start, events[..n + 1], if events[n].Snapshot? then got + [now] else got)
  {
    hide After;
    var more, before := events[..n + 1], events[..n];
    assert more[..n] == before;
    var all := if events[n].Snapshot? then got + [now] else got;
    forall i: nat | i < n + 1 && more[i].Snapshot? ensures SameSnapshot(es, start, more, i, all) {
      if i < n {
        assert before[i] == more[i] && before[..i] == more[..i];
        assert SameSnapshot(es, start, before, i, got);
        SnapshotsGrow(before, i);
      }
    }
  }

  /** One more event keeps the entries those of the run that never sorts. */
  lemma SameAfterEvent(es: seq<Entry>, start: int, events: seq<Event>, i: nat, now: seq<Entry>)
    requires i < |events| && multiset(now) == multiset(After(es, start, events[..i]))
    ensures multiset(Handle(now, events[i])) == multiset(After(es, start, events[..i + 1]))
  {
    hide FireAll, Joined;
    assert events[..i + 1][..i] == events[..i];
    if events[i].Timer? {
      FireAllPermutes(now, After(es, start, events[..i]), events[i].now);
    }
  }

  lemma NothingArmed(es: seq<Entry>, start: int, events: seq<Event>)
    ensures AllArmed(es, start, events, [])
  {
  }

  lemma NothingYet(es: seq<Entry>, start: int, events: seq<Event>)
    ensures After(es, start, events[..0]) == JoinAll(es, start)
    ensures SameSnapshots(es, start, events[..0], [])
  {
  }

  class Cron {
    var entries: seq<Entry>
    var running: bool

    constructor ()
      ensures !running && entries == []
    {
      entries := [];
      running := false;
    }

    /** Schedule, while the loop is not running. */
    method Schedule(f: NextFn)
      requires !running
      modifies this
      ensures entries == old(entries) + [NewEntry(f)] && !running
    {
      entries := entries + [NewEntry(f)];
    }

    method SortEntries()
      modifies this`entries
      ensures Sorted(entries) && multiset(entries) == multiset(old(entries))
    {
      entries := SortByTime(entries);
    }

    /** The timer is armed for the earliest Next, or far in the future when there is none. */
    method Deadline() returns (d: Option<int>)
      requires Sorted(entries)
      ensures Earliest(d, multiset(entries))
    {
      assert forall e | e in multiset(entries) :: e in entries;
      if |entries| == 0 || entries[0].next.None? {
        return None;
      }
      assert entries[0] in multiset(entries);
      return entries[0].next;
    }

    /** The head of the outer loop: sort, then arm the timer. */
    method Arm() returns (deadline: Option<int>)
      modifies this`entries
      ensures Sorted(entries) && multiset(entries) == multiset(old(entries))
      ensures Earliest(deadline, multiset(entries))
    {
      SortEntries();
      deadline := Deadline();
    }

    /** One case of the select: what it does to the entries, whether the loop goes back to sorting, and
        the snapshot it hands out. */
    method Receive(e: Event) returns (resort: bool, copy: seq<Entry>)
      requires Sorted(entries)
      modifies this`entries
      ensures resort <==> !e.Snapshot?
      ensures entries == Handle(old(entries), e)
      ensures e.Snapshot? ==> entries == old(entries) == copy
    {
      resort, copy := true, [];
      match e {
        case Timer(now) => FireDue(now);
        case Add(f, now) => entries := entries + [Joined(NewEntry(f), now)];
        case Snapshot =>
          copy := EntrySnapshot();
          resort := false;
      }
    }

    /** A timer event over sorted entries: the loop stops at the first entry that is not due, and yet
        exactly the due entries fire. */
    method FireDue(now: int)
      requires Sorted(entries)
      modifies this`entries
      ensures entries == FireAll(old(entries), now)
    {
      var k := 0;
      ghost var before := entries;
      while k < |entries| && !(entries[k].next.None? || entries[k].next.value > now)
        invariant k <= |entries| == |before|
        invariant forall i | 0 <= i < k :: entries[i] == FireIfDue(before[i], now)
        invariant forall i | k <= i < |entries| :: entries[i] == before[i]
      {
        entries := entries[k := Fired(entries[k], now)];
        k := k + 1;
      }
      forall i | k <= i < |entries| ensures entries[i] == FireIfDue(before[i], now) {
        assert k < i ==> !Less(before[i], before[k]);
      }
    }

    method EntrySnapshot() returns (copy: seq<Entry>)
      ensures copy == entries
    {
      copy := [];
      for i := 0 to |entries|
        invariant copy == entries[..i]
      {
        copy := copy + [entries[i]];
      }
    }

    /** The first loop of run: every entry's Next is computed from the clock reading. */
    method ComputeNexts(now: int)
      modifies this`entries
      ensures entries == JoinAll(old(entries), now)
    {
      ghost var es := entries;
      var j := 0;
      while j < |entries|
        invariant j <= |entries| == |es|
        invariant forall i | 0 <= i < j :: entries[i] == Joined(es[i], now)
        invariant forall i | j <= i < |entries| :: entries[i] == es[i]
      {
        entries := entries[j := Joined(entries[j], now)];
        j := j + 1;
      }
    }

    /** run, started at clock reading `start`, until it receives a stop after `events`: up to order, the
        entries and every snapshot are those of the run that never sorts, and at every select, the last one
        included, the timer is armed for the earliest nonzero Next. */
    method Run(start: int, events: seq<Event>) returns (snapshots: seq<seq<Entry>>, armed: seq<Option<int>>)
      modifies this
      ensures multiset(entries) == multiset(After(old(entries), start, events))
      ensures SameSnapshots(old(entries), start, events, snapshots)
      ensures |armed| == |events| + 1 && AllArmed(old(entries), start, events, armed)
    {
      hide After, Sorted, FireAll, JoinAll, Joined, Handle, SameSnapshots, Earliest, AllArmed;
      ghost var es := entries;
      running := true;
      snapshots, armed := [], [];
      ComputeNexts(start);
      NothingYet(es, start, events);
      NothingArmed(es, start, events);
      var i := 0;
      while true
        invariant i <= |events| && |armed| == i
        invariant multiset(entries) == multiset(After(es, start, events[..i]))
        invariant SameSnapshots(es, start, events[..i], snapshots)
        invariant AllArmed(es, start, events, armed)
        decreases |events| - i
      {
        var deadline := Arm();
        var waiting := true;
        ghost var i0 := i;
        while waiting
          invariant i0 <= i <= |events| && |armed| == i
          invariant waiting ==> Sorted(entries) && Earliest(deadline, multiset(entries))
          invariant !waiting ==> i0 < i
          invariant multiset(entries) == multiset(After(es, start, events[..i]))
          invariant SameSnapshots(es, start, events[..i], snapshots)
          invariant AllArmed(es, start, events, armed)
          decreases |events| - i, waiting
        {
          OneMoreArmed(es, start, events, armed, deadline, entries);
          armed := armed + [deadline];
          if i == |events| {
            assert events[..i] == events;
            running := false;
            return;
          }
          SameAfterEvent(es, start, events, i, entries);
          OneMoreSnapshot(es, start, events, i, snapshots, entries);
          var resort, copy := Receive(events[i]);
          if events[i].Snapshot? {
            snapshots := snapshots + [copy];
          }
          waiting := !resort;
          i := i + 1;
        }
      }
    }
  }
}
