/** WorkerPool: Serve callers, workers, the cleaner and Stop, interleaved. A step is one section under
    the lock, one send, one receive or one run of the worker function. A channel buffers one message;
    an unbuffered one is the special case in which every send is followed at once by its receive. */
module WorkerPool {
  import opened Options

  type Chan = nat

  /** A numbered call of Serve; its task may be nil. */
  datatype Call = Call(id: nat, isNil: bool)

  /** What travels on a worker channel: the task of a Serve call, or the nil that stops the worker. */
  datatype Msg = Job(call: Call) | Quit

  /** A worker that is not waiting for a message: running a task, about to release its channel, about
      to decrement workersCount, about to put its channel into the pool. */
  datatype Busy = Running(id: nat) | Releasing | Exiting | Putting

  datatype State = State(
    maxWorkers: int, workersCount: int, mustStop: bool,
    ready: seq<Chan>,
    scratch: seq<Chan>,          // taken off ready by clean, stop message not yet sent
    creating: map<nat, Call>,    // Serve calls, by number, between getCh's lock section and the new worker
    leased: map<Chan, Call>,     // Serve calls holding a channel, send still to come
    pending: map<Chan, Msg>,     // sent, not yet received
    busy: map<Chan, Busy>,
    pool: set<Chan>,             // workerChanPool
    nextChan: Chan, nextCall: nat,
    refused: set<nat>, accepted: map<nat, Call>, executed: seq<nat>)

  function Initial(max: int): State {
    State(max, 0, false, [], [], map[], map[], map[], map[], {}, 0, 0, {}, map[], [])
  }

  /** getCh's lock section has three outcomes: the last ready channel is leased, a new worker is
      reserved, or the call is refused. release has two: the channel becomes ready, or mustStop refuses it. */
  datatype Step =
    | ServeLease(isNil: bool) | ServeReserve(isNil: bool) | ServeRefuse
    | ServeCreate(id: nat, reuse: Option<Chan>) | ServeSend(c: Chan)
    | Receive(c: Chan) | RunTask(c: Chan) | Release(c: Chan) | ReleaseRefused(c: Chan)
    | Decrement(c: Chan) | Put(c: Chan) | PoolDrops(c: Chan)
    | CleanCut(n: nat) | CleanSend | StopAll

  predicate Enabled(s: State, a: Step) {
    match a
    case ServeLease(_) => s.ready != []
    case ServeReserve(_) => s.ready == [] && s.workersCount < s.maxWorkers
    case ServeRefuse => s.ready == [] && s.workersCount >= s.maxWorkers
    case ServeCreate(id, reuse) => id in s.creating && (reuse.Some? ==> reuse.value in s.pool)
    case ServeSend(c) => c in s.leased && c !in s.pending
    case Receive(c) => c in s.pending && c !in s.busy
    case RunTask(c) => c in s.busy && s.busy[c].Running?
    case Release(c) => c in s.busy && s.busy[c].Releasing? && !s.mustStop
    case ReleaseRefused(c) => c in s.busy && s.busy[c].Releasing? && s.mustStop
    case Decrement(c) => c in s.busy && s.busy[c].Exiting?
    case Put(c) => c in s.busy && s.busy[c].Putting?
    case PoolDrops(c) => c in s.pool
    case CleanCut(n) => n <= |s.ready| && s.scratch == []
    case CleanSend => s.scratch != [] && s.scratch[0] !in s.pending
    case StopAll => forall c | c in s.ready :: c !in s.pending
  }

  function Next(s: State, a: Step): State
    requires Enabled(s, a)
  {
    match a
    case ServeLease(isNil) =>
      var n := |s.ready| - 1;
      s.(ready := s.ready[..n], leased := s.leased[s.ready[n] := Call(s.nextCall, isNil)], nextCall := s.nextCall + 1)
    case ServeReserve(isNil) =>
      s.(workersCount := s.workersCount + 1, creating := s.creating[s.nextCall := Call(s.nextCall, isNil)],
         nextCall := s.nextCall + 1)
    case ServeRefuse => s.(refused := s.refused + {s.nextCall}, nextCall := s.nextCall + 1)
    case ServeCreate(id, reuse) =>
      var c := if reuse.Some? then reuse.value else s.nextChan;
      s.(creating := s.creating - {id}, leased := s.leased[c := s.creating[id]], pool := s.pool - {c},
         nextChan := if reuse.Some? then s.nextChan else s.nextChan + 1)
    case ServeSend(c) =>
      var k := s.leased[c];
      s.(leased := s.leased - {c}, pending := s.pending[c := Job(k)], accepted := s.accepted[k.id := k])
    case Receive(c) =>
      var m := s.pending[c];
      var next := if m.Quit? || m.call.isNil then Exiting else Running(m.call.id);
      s.(pending := s.pending - {c}, busy := s.busy[c := next])
    case RunTask(c) => s.(executed := s.executed + [s.busy[c].id], busy := s.busy[c := Releasing])
    case Release(c) => s.(busy := s.busy - {c}, ready := s.ready + [c])
    case ReleaseRefused(c) => s.(busy := s.busy[c := Exiting])
    case Decrement(c) => s.(workersCount := s.workersCount - 1, busy := s.busy[c := Putting])
    case Put(c) => s.(busy := s.busy - {c}, pool := s.pool + {c})
    case PoolDrops(c) => s.(pool := s.pool - {c})
    case CleanCut(n) => s.(scratch := s.ready[..n], ready := s.ready[n..])
    case CleanSend => s.(scratch := s.scratch[1..], pending := s.pending[s.scratch[0] := Quit])
    case StopAll => s.(pending := s.pending + (map c | c in s.ready :: Quit), ready := [], mustStop := true)
  }

  function Run(max: int, steps: seq<Step>): Option<State> {
    if steps == [] then Some(Initial(max))
    else
      var before := Run(max, steps[..|steps| - 1]);
      if before.None? || !Enabled(before.value, steps[|steps| - 1]) then None
      else Some(Next(before.value, steps[|steps| - 1]))
  }

  // ----- channel ownership -----

  function Occurs(cs: seq<nat>, c: nat): nat {
    multiset(cs)[c]
  }

  lemma OccursAppend(cs: seq<nat>, x: nat, c: nat)
    ensures Occurs(cs + [x], c) == Occurs(cs, c) + if c == x then 1 else 0
  {
  }

  lemma OccursSplit(cs: seq<nat>, n: nat, c: nat)
    requires n <= |cs|
    ensures Occurs(cs, c) == Occurs(cs[..n], c) + Occurs(cs[n..], c)
  {
    assert cs == cs[..n] + cs[n..];
  }

  lemma OccursOne(x: nat, c: nat)
    ensures Occurs([x], c) == if c == x then 1 else 0
    ensures Occurs([], c) == 0
  {
  }

  lemma OccursIn(cs: seq<nat>, c: nat)
    ensures Occurs(cs, c) > 0 <==> c in cs
  {
  }

  function One(b: bool): nat {
    if b then 1 else 0
  }

  /** In how many places a channel is: ready, waiting for the cleaner's message, leased to a Serve call,
      holding a message, with a busy worker, pooled. */
  function Seats(s: State, c: Chan): nat {
    Occurs(s.ready, c) + Occurs(s.scratch, c)
    + One(c in s.leased) + One(c in s.pending) + One(c in s.busy) + One(c in s.pool)
  }

  /** Every channel is in at most one place. */
  ghost predicate OneSeat(s: State) {
    forall c: Chan :: SeatedOnce(s, c)
  }

  predicate SeatedOnce(s: State, c: Chan) {
    Seats(s, c) <= One(c < s.nextChan)
  }

  /** A step moves a channel from place to place; only the creation of a new channel adds one and only the pool
      loses one. */
  ghost predicate SeatMoves(s: State, a: Step, c: Chan)
    requires Enabled(s, a)
  {
    var t := Next(s, a);
    Seats(t, c) == Seats(s, c) + One(c == s.nextChan < t.nextChan) - One(a == PoolDrops(c))
  }

  predicate ServeStep(a: Step) {
    a.ServeLease? || a.ServeReserve? || a.ServeRefuse? || a.ServeCreate? || a.ServeSend?
  }

  predicate StopStep(a: Step) {
    a.CleanCut? || a.CleanSend? || a.StopAll?
  }

  lemma SeatsKeptByServe(s: State, a: Step, c: Chan)
    requires SeatedOnce(s, c) && Enabled(s, a) && ServeStep(a)
    ensures SeatMoves(s, a, c)
  {
    hide Occurs;
    OccursIn(s.ready, c);
    if a.ServeLease? {
      var n := |s.ready| - 1;
      OccursSplit(s.ready, n, c);
      assert s.ready[n..] == [s.ready[n]];
      OccursOne(s.ready[n], c);
    }
  }

  lemma SeatsKeptByClean(s: State, a: Step, c: Chan)
    requires Enabled(s, a) && (a.CleanCut? || a.CleanSend?)
    ensures SeatMoves(s, a, c)
  {
    hide Occurs;
    OccursIn([], c);
    match a
    case CleanCut(n) => OccursSplit(s.ready, n, c);
    case CleanSend =>
      OccursSplit(s.scratch, 1, c);
      assert s.scratch[..1] == [s.scratch[0]];
      OccursOne(s.scratch[0], c);
  }

  lemma SeatsKeptByStop(s: State, c: Chan)
    requires SeatedOnce(s, c) && Enabled(s, StopAll)
    ensures SeatMoves(s, StopAll, c)
  {
    hide Occurs;
    OccursIn(s.ready, c);
    OccursIn([], c);
  }

  lemma SeatsKeptByRelease(s: State, a: Step, c: Chan)
    requires Enabled(s, a) && a.Release?
    ensures SeatMoves(s, a, c)
  {
    hide Occurs;
    OccursAppend(s.ready, a.c, c);
  }

  lemma SeatsKeptByWorker(s: State, a: Step, c: Chan)
    requires SeatedOnce(s, c) && Enabled(s, a) && !ServeStep(a) && !StopStep(a) && !a.Release?
    ensures SeatMoves(s, a, c)
  {
    hide Occurs;
  }

  lemma ChannelsGrow(s: State, a: Step)
    requires Enabled(s, a)
    ensures Next(s, a).nextChan == s.nextChan + One(a.ServeCreate? && a.reuse.None?)
  {
  }

  /** A step moves channels between places; only creation adds one and only the pool loses one. */
  lemma SeatsKept(s: State, a: Step, c: Chan)
    requires SeatedOnce(s, c) && Enabled(s, a)
    ensures SeatedOnce(Next(s, a), c) && SeatMoves(s, a, c)
  {
    hide Seats, Enabled, Next;
    ChannelsGrow(s, a);
    if ServeStep(a) {
      SeatsKeptByServe(s, a, c);
    } else if a.StopAll? {
      SeatsKeptByStop(s, c);
    } else if StopStep(a) {
      SeatsKeptByClean(s, a, c);
    } else if a.Release? {
      SeatsKeptByRelease(s, a, c);
    } else {
      SeatsKeptByWorker(s, a, c);
    }
  }

  // ----- workersCount -----

  predicate IsWorker(s: State, c: Chan) {
    c in s.ready || c in s.scratch || c in s.leased || c in s.pending || (c in s.busy && s.busy[c] != Putting)
  }

  /** The channels whose worker has not yet decremented workersCount. */
  function Workers(s: State): set<Chan> {
    set c: Chan | c < s.nextChan && IsWorker(s, c)
  }

  /** workersCount is the number of live workers and of workers about to be created, within the limit. */
  predicate Counted(s: State) {
    s.workersCount == |Workers(s)| + |s.creating| && (s.workersCount <= s.maxWorkers || s.workersCount == 0)
  }

  function CreatedOn(s: State, a: Step): Chan
    requires a.ServeCreate?
  {
    if a.reuse.Some? then a.reuse.value else s.nextChan
  }

  /** Creation makes a worker where there was none, a decrement ends one, and no other step does either. */
  ghost predicate WorkerMoves(s: State, a: Step, c: Chan)
    requires Enabled(s, a)
  {
    var created, ended := a.ServeCreate? && c == CreatedOn(s, a), a.Decrement? && c == a.c;
    && (IsWorker(Next(s, a), c) <==> (IsWorker(s, c) || created) && !ended)
    && (created ==> !IsWorker(s, c)) && (ended ==> IsWorker(s, c))
  }

  lemma WorkerMovesByServe(s: State, a: Step, c: Chan)
    requires SeatedOnce(s, c) && Enabled(s, a) && ServeStep(a)
    ensures WorkerMoves(s, a, c)
  {
    hide Occurs;
    OccursIn(s.ready, c);
    OccursIn(s.scratch, c);
    if a.ServeLease? {
      var n := |s.ready| - 1;
      assert s.ready == s.ready[..n] + [s.ready[n]];
    }
  }

  lemma WorkerMovesByStop(s: State, a: Step, c: Chan)
    requires Enabled(s, a) && StopStep(a)
    ensures WorkerMoves(s, a, c)
  {
    match a
    case CleanCut(n) => assert s.ready == s.ready[..n] + s.ready[n..];
    case CleanSend => assert s.scratch == [s.scratch[0]] + s.scratch[1..];
    case StopAll =>
  }

  lemma WorkerMovesByWorker(s: State, a: Step, c: Chan)
    requires SeatedOnce(s, c) && Enabled(s, a) && !ServeStep(a) && !StopStep(a)
    ensures WorkerMoves(s, a, c)
  {
    hide Occurs;
    OccursIn(s.ready, c);
    OccursIn(s.scratch, c);
  }

  lemma WorkerIsKnown(s: State, c: Chan)
    requires SeatedOnce(s, c) && IsWorker(s, c)
    ensures c < s.nextChan
  {
    OccursIn(s.ready, c);
    OccursIn(s.scratch, c);
  }

  lemma WorkersChange(s: State, a: Step)
    requires OneSeat(s) && Enabled(s, a)
    ensures Workers(Next(s, a)) ==
            if a.ServeCreate? then Workers(s) + {CreatedOn(s, a)}
            else if a.Decrement? then Workers(s) - {a.c} else Workers(s)
    ensures a.ServeCreate? ==> CreatedOn(s, a) !in Workers(s)
    ensures a.Decrement? ==> a.c in Workers(s)
  {
    hide IsWorker, SeatedOnce, Enabled, Next;
    forall c: Chan
      ensures c in Workers(s) <==> IsWorker(s, c)
      ensures c in Workers(Next(s, a)) <==> IsWorker(Next(s, a), c)
      ensures WorkerMoves(s, a, c)
    {
      if ServeStep(a) {
        WorkerMovesByServe(s, a, c);
      } else if StopStep(a) {
        WorkerMovesByStop(s, a, c);
      } else {
        WorkerMovesByWorker(s, a, c);
      }
      SeatsKept(s, a, c);
      if IsWorker(s, c) {
        WorkerIsKnown(s, c);
      }
      if IsWorker(Next(s, a), c) {
        WorkerIsKnown(Next(s, a), c);
      }
    }
  }

  /** Serve counts a worker when it reserves it, the worker uncounts itself. */
  lemma CounterMoves(s: State, a: Step)
    requires Enabled(s, a)
    ensures var t := Next(s, a);
            && t.maxWorkers == s.maxWorkers
            && t.workersCount == s.workersCount + One(a.ServeReserve?) - One(a.Decrement?)
            && (a.ServeReserve? ==> s.workersCount < s.maxWorkers)
  {
  }

  lemma ReservedMoves(s: State, a: Step)
    requires Enabled(s, a) && s.nextCall !in s.creating
    ensures |Next(s, a).creating| == |s.creating| + One(a.ServeReserve?) - One(a.ServeCreate?)
  {
    if a.ServeCreate? {
      assert s.creating == (s.creating - {a.id})[a.id := s.creating[a.id]];
    }
  }

  lemma WorkersMove(s: State, a: Step)
    requires OneSeat(s) && Enabled(s, a)
    ensures |Workers(Next(s, a))| == |Workers(s)| + One(a.ServeCreate?) - One(a.Decrement?)
  {
    hide Workers, OneSeat, Enabled, Next;
    WorkersChange(s, a);
  }

  lemma CountedKept(s: State, a: Step)
    requires OneSeat(s) && Counted(s) && Enabled(s, a) && s.nextCall !in s.creating
    ensures Counted(Next(s, a))
  {
    hide Workers, OneSeat, Enabled, Next;
    CounterMoves(s, a);
    ReservedMoves(s, a);
    WorkersMove(s, a);
  }

  // ----- every Serve call has exactly one outcome -----

  function LeasedTo(leased: map<Chan, Call>, n: nat): set<Chan> {
    set c | c in leased && leased[c].id == n
  }

  lemma LeaseAdds(leased: map<Chan, Call>, c: Chan, k: Call, n: nat)
    requires c !in leased
    ensures |LeasedTo(leased[c := k], n)| == |LeasedTo(leased, n)| + One(k.id == n)
  {
    assert LeasedTo(leased[c := k], n) == LeasedTo(leased, n) + if k.id == n then {c} else {};
  }

  lemma LeaseEnds(leased: map<Chan, Call>, c: Chan, n: nat)
    requires c in leased
    ensures |LeasedTo(leased - {c}, n)| == |LeasedTo(leased, n)| - One(leased[c].id == n)
    ensures leased[c].id == n ==> |LeasedTo(leased, n)| > 0
  {
    if leased[c].id == n {
      assert c in LeasedTo(leased, n);
    }
    assert LeasedTo(leased - {c}, n) == LeasedTo(leased, n) - if leased[c].id == n then {c} else {};
  }

  /** In how many places the Serve call numbered n is: about to create a worker, holding a channel,
      accepted, refused. */
  function CallPlaces(s: State, n: nat): nat {
    One(n in s.creating) + |LeasedTo(s.leased, n)| + One(n in s.accepted) + One(n in s.refused)
  }

  predicate CallOnce(s: State, n: nat) {
    && CallPlaces(s, n) == One(n < s.nextCall)
    && (n in s.creating ==> s.creating[n].id == n)
  }

  /** Only the steps of Serve touch calls. */
  lemma CallsUntouched(s: State, a: Step)
    requires Enabled(s, a) && !ServeStep(a)
    ensures var t := Next(s, a);
            && t.creating == s.creating && t.leased == s.leased && t.accepted == s.accepted
            && t.refused == s.refused && t.nextCall == s.nextCall
  {
  }

  ghost predicate Labelled(s: State) {
    forall i | i in s.creating :: s.creating[i].id == i
  }

  lemma ReadyIsNotLeased(s: State, c: Chan)
    requires SeatedOnce(s, c) && c in s.ready
    ensures c !in s.leased
  {
    OccursIn(s.ready, c);
  }

  lemma LeaseKeepsCall(s: State, a: Step, n: nat)
    requires OneSeat(s) && CallOnce(s, n) && Enabled(s, a) && a.ServeLease?
    ensures CallOnce(Next(s, a), n)
  {
    hide SeatedOnce, LeasedTo;
    var c := s.ready[|s.ready| - 1];
    assert SeatedOnce(s, c);
    ReadyIsNotLeased(s, c);
    LeaseAdds(s.leased, c, Call(s.nextCall, a.isNil), n);
  }

  lemma NewCallKeepsCall(s: State, a: Step, n: nat)
    requires CallOnce(s, n) && Enabled(s, a) && (a.ServeReserve? || a.ServeRefuse?)
    ensures CallOnce(Next(s, a), n)
  {
    hide LeasedTo;
  }

  lemma CreateKeepsCall(s: State, a: Step, n: nat)
    requires OneSeat(s) && CallOnce(s, n) && Labelled(s) && Enabled(s, a) && a.ServeCreate?
    ensures CallOnce(Next(s, a), n)
  {
    hide Occurs, LeasedTo;
    assert SeatedOnce(s, CreatedOn(s, a));
    LeaseAdds(s.leased, CreatedOn(s, a), s.creating[a.id], n);
  }

  lemma SendKeepsCall(s: State, a: Step, n: nat)
    requires CallOnce(s, n) && Enabled(s, a) && a.ServeSend?
    ensures CallOnce(Next(s, a), n)
  {
    hide LeasedTo;
    LeaseEnds(s.leased, a.c, n);
  }

  lemma CallKept(s: State, a: Step, n: nat)
    requires OneSeat(s) && Enabled(s, a) && CallOnce(s, n) && Labelled(s)
    ensures CallOnce(Next(s, a), n)
  {
    hide Next, OneSeat, Enabled;
    if a.ServeLease? {
      LeaseKeepsCall(s, a, n);
    } else if a.ServeReserve? || a.ServeRefuse? {
      NewCallKeepsCall(s, a, n);
    } else if a.ServeCreate? {
      CreateKeepsCall(s, a, n);
    } else if a.ServeSend? {
      SendKeepsCall(s, a, n);
    } else {
      CallsUntouched(s, a);
    }
  }

  // ----- every accepted task runs once -----

  predicate Holds(s: State, n: nat, c: Chan) {
    (c in s.pending && s.pending[c] == Job(Call(n, false))) || (c in s.busy && s.busy[c] == Running(n))
  }

  /** The channels that carry the task of call n, sent but not received or being run. */
  function Holders(s: State, n: nat): set<Chan> {
    set c | c in s.pending.Keys + s.busy.Keys && Holds(s, n, c)
  }

  predicate Accepted(s: State, n: nat) {
    n in s.accepted && !s.accepted[n].isNil
  }

  /** A non-nil task is executed or carried by one channel if it was accepted, and neither otherwise. */
  predicate JobOnce(s: State, n: nat) {
    Occurs(s.executed, n) + |Holders(s, n)| == One(Accepted(s, n))
  }

  /** A task comes to a channel when it is sent there and leaves it when it has run. */
  ghost predicate JobMoves(s: State, a: Step, n: nat, c: Chan)
    requires Enabled(s, a)
  {
    var sent, ran := a == ServeSend(c) && s.leased[c] == Call(n, false), a == RunTask(c) && s.busy[c].id == n;
    && (Holds(Next(s, a), n, c) <==> (Holds(s, n, c) || sent) && !ran)
    && (sent ==> !Holds(s, n, c)) && (ran ==> Holds(s, n, c))
  }

  lemma JobMovesByServe(s: State, a: Step, n: nat, c: Chan)
    requires SeatedOnce(s, c) && Enabled(s, a) && ServeStep(a)
    ensures JobMoves(s, a, n, c)
  {
    hide Occurs;
  }

  lemma JobMovesByStop(s: State, a: Step, n: nat, c: Chan)
    requires SeatedOnce(s, c) && Enabled(s, a) && StopStep(a)
    ensures JobMoves(s, a, n, c)
  {
    hide Occurs;
    OccursIn(s.ready, c);
    OccursIn(s.scratch, c);
  }

  lemma JobMovesByWorker(s: State, a: Step, n: nat, c: Chan)
    requires SeatedOnce(s, c) && Enabled(s, a) && !ServeStep(a) && !StopStep(a)
    ensures JobMoves(s, a, n, c)
  {
    hide Occurs;
  }

  lemma HoldersChange(s: State, a: Step, n: nat)
    requires OneSeat(s) && Enabled(s, a)
    ensures if a.ServeSend? && s.leased[a.c] == Call(n, false)
            then a.c !in Holders(s, n) && Holders(Next(s, a), n) == Holders(s, n) + {a.c}
            else if a.RunTask? && s.busy[a.c].id == n
            then a.c in Holders(s, n) && Holders(Next(s, a), n) == Holders(s, n) - {a.c}
            else Holders(Next(s, a), n) == Holders(s, n)
  {
    hide Next, SeatedOnce;
    forall c: Chan
      ensures c in Holders(s, n) <==> Holds(s, n, c)
      ensures c in Holders(Next(s, a), n) <==> Holds(Next(s, a), n, c)
      ensures JobMoves(s, a, n, c)
    {
      if ServeStep(a) {
        JobMovesByServe(s, a, n, c);
      } else if StopStep(a) {
        JobMovesByStop(s, a, n, c);
      } else {
        JobMovesByWorker(s, a, n, c);
      }
    }
  }

  lemma ExecutedChange(s: State, a: Step)
    requires Enabled(s, a)
    ensures Next(s, a).executed == if a.RunTask? then s.executed + [s.busy[a.c].id] else s.executed
    ensures Next(s, a).accepted == if a.ServeSend? then s.accepted[s.leased[a.c].id := s.leased[a.c]] else s.accepted
  {
  }

  lemma JobKept(s: State, a: Step, n: nat)
    requires OneSeat(s) && Enabled(s, a) && CallOnce(s, n) && JobOnce(s, n)
    ensures JobOnce(Next(s, a), n)
  {
    hide Holders, Occurs, OneSeat, Next;
    HoldersChange(s, a, n);
    ExecutedChange(s, a);
    if a.RunTask? {
      OccursAppend(s.executed, s.busy[a.c].id, n);
    } else if a.ServeSend? && s.leased[a.c].id == n {
      LeaseEnds(s.leased, a.c, n);
    }
  }

  // ----- whole runs -----

  /** After Stop no worker is ready, and none becomes ready again. */
  predicate Stopped(s: State) {
    s.mustStop ==> s.ready == []
  }

  lemma StoppedKept(s: State, a: Step)
    requires Stopped(s) && Enabled(s, a)
    ensures Stopped(Next(s, a))
  {
  }

  ghost predicate Inv(s: State) {
    && OneSeat(s) && Counted(s) && Stopped(s)
    && (forall n: nat :: CallOnce(s, n))
    && (forall n: nat :: JobOnce(s, n))
  }

  lemma StepKeepsInv(s: State, a: Step)
    requires Inv(s) && Enabled(s, a)
    ensures Inv(Next(s, a))
  {
    hide SeatedOnce, Counted, Stopped, JobOnce, Enabled, Next;
    assert CallOnce(s, s.nextCall);
    assert forall i | i in s.creating :: CallOnce(s, i);
    assert Labelled(s);
    forall c: Chan ensures SeatedOnce(Next(s, a), c) {
      SeatsKept(s, a, c);
    }
    forall n: nat ensures CallOnce(Next(s, a), n) && JobOnce(Next(s, a), n) {
      CallKept(s, a, n);
      JobKept(s, a, n);
    }
    CountedKept(s, a);
    StoppedKept(s, a);
  }

  lemma InitialInv(max: int)
    ensures Inv(Initial(max))
  {
    assert forall n: nat :: Occurs([], n) == 0;
  }

  lemma LimitFixed(s: State, a: Step)
    requires Enabled(s, a)
    ensures Next(s, a).maxWorkers == s.maxWorkers
  {
  }

  lemma {:induction false} RunKeepsInv(max: int, steps: seq<Step>)
    requires Run(max, steps).Some?
    ensures Inv(Run(max, steps).value) && Run(max, steps).value.maxWorkers == max
  {
    hide Inv, Enabled, Next;
    if steps == [] {
      InitialInv(max);
    } else {
      var n := |steps| - 1;
      RunKeepsInv(max, steps[..n]);
      LimitFixed(Run(max, steps[..n]).value, steps[n]);
      StepKeepsInv(Run(max, steps[..n]).value, steps[n]);
    }
  }

  /** In every interleaving: a channel is in at most one place, that of a live worker or a
      pooled one in exactly one, so it holds at most one message and no
      send ever finds its buffer full; workersCount is the number of live workers and within the limit;
      no task runs twice or without having been accepted, and an accepted task that has not run is
      carried by exactly one channel. */
  lemma PoolIsSafe(max: int, steps: seq<Step>, c: Chan, n: nat)
    requires Run(max, steps).Some?
    ensures var s := Run(max, steps).value;
            && Seats(s, c) <= 1
            && (c in Workers(s) || c in s.pool ==> Seats(s, c) == 1)
            && (c in s.leased || c in s.ready || c in s.scratch ==> c !in s.pending)
            && s.workersCount == |Workers(s)| + |s.creating|
            && (max >= 0 ==> s.workersCount <= max)
            && Occurs(s.executed, n) <= 1
            && (n in s.executed ==> Accepted(s, n) && Holders(s, n) == {})
            && (Accepted(s, n) && n !in s.executed ==> |Holders(s, n)| == 1)
            && CallPlaces(s, n) == One(n < s.nextCall)
  {
    RunKeepsInv(max, steps);
    var s := Run(max, steps).value;
    assert SeatedOnce(s, c) && CallOnce(s, n) && JobOnce(s, n);
    hide Occurs, Holders;
    OccursIn(s.ready, c);
    OccursIn(s.scratch, c);
    OccursIn(s.executed, n);
  }

  // ----- workers stop by themselves -----

  /** A step that finishes what has been begun: of a Serve call behind its section under the lock, of the
      cleaner sending its messages, of a worker. */
  predicate Finishing(a: Step) {
    || a.ServeCreate? || a.ServeSend? || a.CleanSend?
    || a.Receive? || a.RunTask? || a.Release? || a.ReleaseRefused? || a.Decrement? || a.Put?
  }

  function Weight(b: Busy): nat {
    match b
    case Running(_) => 4
    case Releasing => 3
    case Exiting => 2
    case Putting => 1
  }

  function Level(busy: map<Chan, Busy>, k: nat): set<Chan> {
    set c | c in busy && Weight(busy[c]) >= k
  }

  function BusyLoad(busy: map<Chan, Busy>): nat {
    |Level(busy, 1)| + |Level(busy, 2)| + |Level(busy, 3)| + |Level(busy, 4)|
  }

  /** How many finishing steps there can still be. */
  function Load(s: State): nat {
    7 * |s.creating| + 6 * |s.leased| + 6 * |s.scratch| + 5 * |s.pending| + BusyLoad(s.busy)
  }

  lemma LevelDrops(busy: map<Chan, Busy>, c: Chan, k: nat)
    requires c in busy
    ensures |Level(busy - {c}, k)| == |Level(busy, k)| - One(Weight(busy[c]) >= k)
  {
    assert Level(busy - {c}, k) == Level(busy, k) - if Weight(busy[c]) >= k then {c} else {};
  }

  lemma LevelGrows(busy: map<Chan, Busy>, c: Chan, b: Busy, k: nat)
    requires c !in busy
    ensures |Level(busy[c := b], k)| == |Level(busy, k)| + One(Weight(b) >= k)
  {
    assert Level(busy[c := b], k) == Level(busy, k) + if Weight(b) >= k then {c} else {};
  }

  lemma LoadDrops(busy: map<Chan, Busy>, c: Chan)
    requires c in busy
    ensures BusyLoad(busy - {c}) == BusyLoad(busy) - Weight(busy[c])
  {
    hide Level;
    LevelDrops(busy, c, 1);
    LevelDrops(busy, c, 2);
    LevelDrops(busy, c, 3);
    LevelDrops(busy, c, 4);
  }

  lemma LoadGrows(busy: map<Chan, Busy>, c: Chan, b: Busy)
    requires c !in busy
    ensures BusyLoad(busy[c := b]) == BusyLoad(busy) + Weight(b)
  {
    hide Level;
    LevelGrows(busy, c, b, 1);
    LevelGrows(busy, c, b, 2);
    LevelGrows(busy, c, b, 3);
    LevelGrows(busy, c, b, 4);
  }

  lemma LoadChanges(busy: map<Chan, Busy>, c: Chan, b: Busy)
    requires c in busy
    ensures BusyLoad(busy[c := b]) == BusyLoad(busy) - Weight(busy[c]) + Weight(b)
  {
    hide BusyLoad, Weight;
    LoadDrops(busy, c);
    LoadGrows(busy - {c}, c, b);
    assert (busy - {c})[c := b] == busy[c := b];
  }

  lemma MapDrops<V>(m: map<nat, V>, c: nat)
    requires c in m
    ensures |m - {c}| == |m| - 1
  {
    assert m == (m - {c})[c := m[c]];
  }

  lemma MapGrows<V>(m: map<nat, V>, c: nat, v: V)
    ensures |m[c := v]| <= |m| + 1
  {
  }

  lemma ServeWorks(s: State, a: Step)
    requires Enabled(s, a) && (a.ServeCreate? || a.ServeSend? || a.CleanSend?)
    ensures Load(Next(s, a)) < Load(s)
  {
    hide BusyLoad;
    match a
    case ServeCreate(id, _) =>
      MapDrops(s.creating, id);
      MapGrows(s.leased, CreatedOn(s, a), s.creating[id]);
    case ServeSend(c) =>
      MapDrops(s.leased, c);
      MapGrows(s.pending, c, Job(s.leased[c]));
    case CleanSend => MapGrows(s.pending, s.scratch[0], Quit);
  }

  lemma ReceiveWorks(s: State, a: Step)
    requires Enabled(s, a) && a.Receive?
    ensures Load(Next(s, a)) < Load(s)
  {
    hide BusyLoad;
    MapDrops(s.pending, a.c);
    LoadGrows(s.busy, a.c, Next(s, a).busy[a.c]);
  }

  lemma WorkerWorks(s: State, a: Step)
    requires Enabled(s, a) && (a.RunTask? || a.Release? || a.ReleaseRefused? || a.Decrement? || a.Put?)
    ensures Load(Next(s, a)) < Load(s)
  {
    hide BusyLoad;
    match a
    case Release(c) => LoadDrops(s.busy, c);
    case Put(c) => LoadDrops(s.busy, c);
    case RunTask(c) => LoadChanges(s.busy, c, Releasing);
    case ReleaseRefused(c) => LoadChanges(s.busy, c, Exiting);
    case Decrement(c) => LoadChanges(s.busy, c, Putting);
  }

  /** Every finishing step is one less to come. */
  lemma FinishingWorks(s: State, a: Step)
    requires Enabled(s, a) && Finishing(a)
    ensures Load(Next(s, a)) < Load(s)
  {
    hide Load, Next, Enabled;
    if a.ServeCreate? || a.ServeSend? || a.CleanSend? {
      ServeWorks(s, a);
    } else if a.Receive? {
      ReceiveWorks(s, a);
    } else {
      WorkerWorks(s, a);
    }
  }

  /** A list of finishing steps that can be taken one after the other. */
  ghost predicate Finishes(s: State, steps: seq<Step>)
    decreases |steps|
  {
    steps == [] || (Finishing(steps[0]) && Enabled(s, steps[0]) && Finishes(Next(s, steps[0]), steps[1..]))
  }

  /** What has been begun is finished in a bounded number of steps, in any order. */
  lemma {:induction false} FinishesInTime(s: State, steps: seq<Step>)
    requires Finishes(s, steps)
    ensures |steps| <= Load(s)
    decreases |steps|
  {
    hide Load, Enabled, Next;
    if steps != [] {
      FinishingWorks(s, steps[0]);
      FinishesInTime(Next(s, steps[0]), steps[1..]);
    }
  }

  /** No finishing step can be taken. */
  ghost predicate AtRest(s: State) {
    forall a | Finishing(a) :: !Enabled(s, a)
  }

  predicate NothingBegun(s: State) {
    s.creating == map[] && s.leased == map[] && s.scratch == [] && s.pending == map[] && s.busy == map[]
  }

  lemma BusyMoves(s: State, c: Chan) returns (a: Step)
    requires c in s.busy
    ensures Finishing(a) && Enabled(s, a)
  {
    match s.busy[c]
    case Running(_) => a := RunTask(c);
    case Releasing => a := if s.mustStop then ReleaseRefused(c) else Release(c);
    case Exiting => a := Decrement(c);
    case Putting => a := Put(c);
  }

  /** What has been begun is never blocked. */
  lemma BegunMoves(s: State) returns (a: Step)
    requires OneSeat(s) && !NothingBegun(s)
    ensures Finishing(a) && Enabled(s, a)
  {
    hide Occurs;
    if c :| c in s.busy {
      a := BusyMoves(s, c);
    } else if c :| c in s.pending {
      a := Receive(c);
    } else if id :| id in s.creating {
      a := ServeCreate(id, None);
    } else if c :| c in s.leased {
      a := ServeSend(c);
    } else {
      a := CleanSend;
    }
  }

  lemma RestIsEmpty(s: State)
    requires OneSeat(s) && AtRest(s)
    ensures NothingBegun(s)
  {
    hide Enabled, OneSeat;
    if !NothingBegun(s) {
      var a := BegunMoves(s);
    }
  }

  /** In every interleaving, when no finishing step can be taken, every accepted task has run exactly once,
      every Serve call has been answered, and the workers are the ready ones; after Stop there are none. */
  lemma RestIsComplete(max: int, steps: seq<Step>, n: nat)
    requires Run(max, steps).Some? && AtRest(Run(max, steps).value)
    ensures var s := Run(max, steps).value;
            && (Accepted(s, n) ==> Occurs(s.executed, n) == 1)
            && (n < s.nextCall ==> n in s.accepted || n in s.refused)
            && Workers(s) == (set c | c in s.ready) && s.workersCount == |Workers(s)|
            && (s.mustStop ==> s.workersCount == 0)
  {
    hide Run, AtRest;
    RunKeepsInv(max, steps);
    var s := Run(max, steps).value;
    RestIsEmpty(s);
    assert CallOnce(s, n) && JobOnce(s, n);
    assert Holders(s, n) == {} && LeasedTo(s.leased, n) == {};
    forall c | c in s.ready ensures c in Workers(s) {
      assert SeatedOnce(s, c);
      WorkerIsKnown(s, c);
    }
    assert Workers(s) == set c | c in s.ready;
  }
}
