/** Shutdown of WorkPool: submitters, the dispatcher, the workers and the waiter, interleaved step by
    step over the closable queue and the task channel. No task fails or times out. */
module WorkPool {
  import opened Options

  type Task = nat

  /** startQueue: not yet scheduled, about to pop, holding a popped task, about to clear isQueTask, done. */
  datatype Dispatcher = NotStarted | Popping | Holding(task: Task) | Finishing | Ended

  /** Wait: not called, in waitingQueue.Wait, about to close the queue, then the three separate reads of
      waitTask (queue length, channel length, isQueTask), about to close the channel, in wg.Wait, returned. */
  datatype Waiter = NotCalled | AwaitQueue | ClosingQueue | ReadingQueue | ReadingTasks | ReadingFlag
                  | ClosingTasks | AwaitWorkers | Returned

  /** Workers are told apart only by what they do: waiting for a task, running one, or gone. */
  datatype State = State(
    workers: nat,
    queue: seq<Task>, queueClosed: bool,
    tasks: seq<Task>, tasksClosed: bool, sentOnClosed: bool,
    isQueTask: bool, dispatcher: Dispatcher, waiter: Waiter,
    idle: nat, running: multiset<Task>, exited: nat,
    submitted: seq<Task>, executed: seq<Task>)

  datatype Step =
    | Do(task: Task) | CallWait
    | StartDispatcher | DispatcherPops | DispatcherSends | DispatcherEnds
    | WaiterSteps
    | WorkerTakes | WorkerRuns(task: Task) | WorkerExits

  function Initial(max: int): State {
    var n := if max < 1 then 1 else max;
    State(n, [], false, [], false, false, false, NotStarted, NotCalled, n, multiset{}, 0, [], [])
  }

  /** The calls of Do come before the call of Wait. */
  predicate Enabled(s: State, a: Step) {
    match a
    case Do(_) => s.waiter == NotCalled
    case CallWait => s.waiter == NotCalled
    case StartDispatcher => s.dispatcher == NotStarted
    case DispatcherPops => s.dispatcher == Popping && (s.queueClosed || s.queue != [])
    case DispatcherSends => s.dispatcher.Holding? && (s.tasksClosed || |s.tasks| < 2 * s.workers)
    case DispatcherEnds => s.dispatcher == Finishing
    case WaiterSteps =>
      match s.waiter {
        case NotCalled | Returned => false
        case AwaitQueue => s.queueClosed || s.queue == []
        case AwaitWorkers => s.exited == s.workers
        case _ => true
      }
    case WorkerTakes => s.idle > 0 && s.tasks != []
    case WorkerRuns(t) => t in s.running
    case WorkerExits => s.idle > 0 && s.tasks == [] && s.tasksClosed
  }

  /** Length of the queue as Len reports it: Close zeroes the counter. */
  function Len(s: State): nat {
    if s.queueClosed then 0 else |s.queue|
  }

  /** Where the waiter stands after its next statement. */
  function WaiterAfter(s: State): Waiter {
    match s.waiter
    case NotCalled => NotCalled
    case AwaitQueue => ClosingQueue
    case ClosingQueue => ReadingQueue
    case ReadingQueue => if Len(s) == 0 then ReadingTasks else ReadingQueue
    case ReadingTasks => if s.tasks == [] then ReadingFlag else ReadingQueue
    case ReadingFlag => if !s.isQueTask then ClosingTasks else ReadingQueue
    case ClosingTasks => AwaitWorkers
    case AwaitWorkers => Returned
    case Returned => Returned
  }

  function Next(s: State, a: Step): State
    requires Enabled(s, a)
  {
    match a
    case Do(t) =>
      s.(queue := if s.queueClosed then s.queue else s.queue + [t], submitted := s.submitted + [t])
    case CallWait => s.(waiter := AwaitQueue)
    case StartDispatcher => s.(dispatcher := Popping, isQueTask := true)
    case DispatcherPops =>
      if s.queueClosed then s.(dispatcher := Finishing)
      else s.(dispatcher := Holding(s.queue[0]), queue := s.queue[1..])
    case DispatcherSends =>
      if s.tasksClosed then s.(sentOnClosed := true)
      else s.(tasks := s.tasks + [s.dispatcher.task], dispatcher := Popping)
    case DispatcherEnds => s.(dispatcher := Ended, isQueTask := false)
    case WaiterSteps =>
      s.(waiter := WaiterAfter(s), queueClosed := s.queueClosed || s.waiter == ClosingQueue,
         tasksClosed := s.tasksClosed || s.waiter == ClosingTasks)
    case WorkerTakes =>
      s.(tasks := s.tasks[1..], idle := s.idle - 1, running := s.running + multiset{s.tasks[0]})
    case WorkerRuns(t) =>
      s.(running := s.running - multiset{t}, idle := s.idle + 1, executed := s.executed + [t])
    case WorkerExits => s.(idle := s.idle - 1, exited := s.exited + 1)
  }

  function Run(max: int, steps: seq<Step>): Option<State> {
    if steps == [] then Some(Initial(max))
    else
      var before := Run(max, steps[..|steps| - 1]);
      if before.None? || !Enabled(before.value, steps[|steps| - 1]) then None
      else Some(Next(before.value, steps[|steps| - 1]))
  }

  // ----- what every interleaving keeps -----

  function Occurs(ts: seq<Task>, t: Task): nat {
    multiset(ts)[t]
  }

  /** In how many places a task is: executed, running, in the channel, held by the dispatcher, queued. */
  function Places(s: State, t: Task): nat {
    Occurs(s.executed, t) + s.running[t] + Occurs(s.tasks, t)
    + (if s.dispatcher == Holding(t) then 1 else 0) + Occurs(s.queue, t)
  }

  /** Every submitted task is in exactly one place, and as often as it was submitted. */
  ghost predicate Conserved(s: State) {
    forall t: Task :: Places(s, t) == Occurs(s.submitted, t)
  }

  predicate QueueDrained(w: Waiter) {
    !w.NotCalled? && !w.AwaitQueue?
  }

  predicate FlagSeenClear(w: Waiter) {
    w.ClosingTasks? || w.AwaitWorkers? || w.Returned?
  }

  ghost predicate WorkersCounted(s: State) {
    s.workers == s.idle + |s.running| + s.exited && s.workers > 0
  }

  ghost predicate Phases(s: State) {
    // the queue is closed only when it is empty, and then stays empty
    && (QueueDrained(s.waiter) ==> s.queue == [])
    && (s.queueClosed <==> QueueDrained(s.waiter) && s.waiter != ClosingQueue)
    // the flag is up exactly while the dispatcher is between its first and its last statement
    && (s.isQueTask <==> s.dispatcher.Popping? || s.dispatcher.Holding? || s.dispatcher.Finishing?)
    // once the waiter has seen the flag down on a closed queue, the dispatcher can send nothing more
    && (FlagSeenClear(s.waiter) ==> !s.dispatcher.Holding?)
    && (s.tasksClosed <==> s.waiter.AwaitWorkers? || s.waiter.Returned?)
    && (s.exited > 0 ==> s.tasksClosed && s.tasks == [])
    && (s.waiter.Returned? ==> s.exited == s.workers)
    && (s.dispatcher.Finishing? || s.dispatcher.Ended? ==> s.queueClosed)
    && !s.sentOnClosed
  }

  ghost predicate Inv(s: State) {
    Conserved(s) && WorkersCounted(s) && Phases(s)
  }

  lemma PhasesKept(s: State, a: Step)
    requires Phases(s) && s.workers > 0 && Enabled(s, a) && s.exited + s.idle <= s.workers
    ensures Phases(Next(s, a))
  {
  }

  lemma RunningUntouched(s: State, a: Step)
    requires Enabled(s, a) && !a.WorkerTakes? && !a.WorkerRuns? && !a.WorkerExits?
    ensures var n := Next(s, a);
            n.running == s.running && n.idle == s.idle && n.exited == s.exited && n.workers == s.workers
  {
    hide WaiterAfter;
  }

  lemma WorkersKept(s: State, a: Step)
    requires WorkersCounted(s) && Enabled(s, a)
    ensures WorkersCounted(Next(s, a))
  {
    match a
    case WorkerTakes =>
    case WorkerRuns(t) =>
    case WorkerExits =>
    case _ => RunningUntouched(s, a);
  }

  lemma OccursAppend(ts: seq<Task>, x: Task, t: Task)
    ensures Occurs(ts + [x], t) == Occurs(ts, t) + if t == x then 1 else 0
  {
  }

  lemma OccursHead(ts: seq<Task>, t: Task)
    requires ts != []
    ensures Occurs(ts, t) == Occurs(ts[1..], t) + if t == ts[0] then 1 else 0
  {
    assert ts == [ts[0]] + ts[1..];
  }

  /** No step but Do changes in how many places a task is. */
  ghost predicate PlacesMatch(s: State, a: Step, t: Task)
    requires Enabled(s, a)
  {
    Places(Next(s, a), t) - Places(s, t) == Occurs(Next(s, a).submitted, t) - Occurs(s.submitted, t)
  }

  lemma DispatcherKeepsPlaces(s: State, a: Step, t: Task)
    requires Phases(s) && Enabled(s, a) && (a.DispatcherPops? || a.DispatcherSends?)
    ensures PlacesMatch(s, a, t)
  {
    hide Occurs;
    if a.DispatcherSends? {
      OccursAppend(s.tasks, s.dispatcher.task, t);
    } else if !s.queueClosed {
      OccursHead(s.queue, t);
    }
  }

  lemma WorkerKeepsPlaces(s: State, a: Step, t: Task)
    requires Enabled(s, a) && (a.WorkerTakes? || a.WorkerRuns?)
    ensures PlacesMatch(s, a, t)
  {
    hide Occurs;
    if a.WorkerTakes? {
      OccursHead(s.tasks, t);
    } else {
      OccursAppend(s.executed, a.task, t);
    }
  }

  lemma DoKeepsPlaces(s: State, a: Step, t: Task)
    requires Phases(s) && Enabled(s, a) && a.Do?
    ensures PlacesMatch(s, a, t)
  {
    hide Occurs;
    OccursAppend(s.queue, a.task, t);
    OccursAppend(s.submitted, a.task, t);
  }

  lemma ControlKeepsPlaces(s: State, a: Step, t: Task)
    requires Enabled(s, a)
    requires a.CallWait? || a.StartDispatcher? || a.DispatcherEnds? || a.WaiterSteps? || a.WorkerExits?
    ensures PlacesMatch(s, a, t)
  {
    hide Occurs, WaiterAfter;
  }

  lemma PlacesKept(s: State, a: Step, t: Task)
    requires Phases(s) && Enabled(s, a)
    ensures PlacesMatch(s, a, t)
  {
    hide PlacesMatch, Phases, Enabled, Next;
    match a
    case Do(_) => DoKeepsPlaces(s, a, t);
    case DispatcherPops | DispatcherSends => DispatcherKeepsPlaces(s, a, t);
    case WorkerTakes | WorkerRuns(_) => WorkerKeepsPlaces(s, a, t);
    case _ => ControlKeepsPlaces(s, a, t);
  }

  lemma StepKeepsInv(s: State, a: Step)
    requires Inv(s) && Enabled(s, a)
    ensures Inv(Next(s, a))
  {
    hide Places, Occurs, Enabled, Next;
    PhasesKept(s, a);
    WorkersKept(s, a);
    forall t: Task ensures Places(Next(s, a), t) == Occurs(Next(s, a).submitted, t) {
      PlacesKept(s, a, t);
    }
  }

  lemma {:induction false} RunKeepsInv(max: int, steps: seq<Step>)
    requires Run(max, steps).Some?
    ensures Inv(Run(max, steps).value)
  {
    if steps != [] {
      var n := |steps| - 1;
      RunKeepsInv(max, steps[..n]);
      StepKeepsInv(Run(max, steps[..n]).value, steps[n]);
    }
  }

  lemma ReturnedHasRun(s: State)
    requires Inv(s) && s.waiter == Returned
    ensures multiset(s.executed) == multiset(s.submitted)
  {
    assert |s.running| == 0;
    forall t: Task ensures multiset(s.executed)[t] == multiset(s.submitted)[t] {
      assert Places(s, t) == Occurs(s.executed, t);
    }
  }

  /** In every interleaving nothing is sent on the closed task channel, and when Wait has returned every
      submitted task has been executed exactly as often as it was submitted. */
  lemma WaitRunsEverything(max: int, steps: seq<Step>)
    requires Run(max, steps).Some?
    ensures !Run(max, steps).value.sentOnClosed
    ensures Run(max, steps).value.waiter == Returned ==>
              multiset(Run(max, steps).value.executed) == multiset(Run(max, steps).value.submitted)
  {
    RunKeepsInv(max, steps);
    if Run(max, steps).value.waiter == Returned {
      ReturnedHasRun(Run(max, steps).value);
    }
  }

  /** The tasks in the order in which workers took them. */
  function Taken(max: int, steps: seq<Step>): seq<Task>
    requires Run(max, steps).Some?
  {
    if steps == [] then []
    else
      var n := |steps| - 1;
      Taken(max, steps[..n]) + if steps[n].WorkerTakes? then [Run(max, steps[..n]).value.tasks[0]] else []
  }

  function Held(d: Dispatcher): seq<Task> {
    if d.Holding? then [d.task] else []
  }

  /** Tasks are started in the order in which they were submitted: those taken by workers, in the channel, held
      by the dispatcher and queued are, in this order, all that were submitted. */
  lemma {:induction false} StartedInOrder(max: int, steps: seq<Step>)
    requires Run(max, steps).Some?
    ensures var s := Run(max, steps).value;
            Taken(max, steps) + s.tasks + Held(s.dispatcher) + s.queue == s.submitted
  {
    if steps != [] {
      hide Run;
      var n := |steps| - 1;
      StartedInOrder(max, steps[..n]);
      RunKeepsInv(max, steps[..n]);
      RunStep(max, steps);
      OrderKept(Run(max, steps[..n]).value, steps[n], Taken(max, steps[..n]));
    }
  }

  lemma RunStep(max: int, steps: seq<Step>)
    requires steps != [] && Run(max, steps).Some?
    ensures var n := |steps| - 1;
            && Run(max, steps[..n]).Some? && Enabled(Run(max, steps[..n]).value, steps[n])
            && Run(max, steps).value == Next(Run(max, steps[..n]).value, steps[n])
  {
  }

  ghost predicate InOrder(s: State, taken: seq<Task>) {
    taken + s.tasks + Held(s.dispatcher) + s.queue == s.submitted
  }

  lemma OrderUntouched(s: State, a: Step, taken: seq<Task>)
    requires Enabled(s, a) && InOrder(s, taken)
    requires !a.Do? && !a.DispatcherPops? && !a.DispatcherSends? && !a.WorkerTakes?
    ensures InOrder(Next(s, a), taken)
  {
    hide WaiterAfter;
  }

  lemma OrderByDispatcher(s: State, a: Step, taken: seq<Task>)
    requires Phases(s) && Enabled(s, a) && InOrder(s, taken) && (a.DispatcherPops? || a.DispatcherSends?)
    ensures InOrder(Next(s, a), taken)
  {
    if a.DispatcherPops? && !s.queueClosed {
      assert s.queue == [s.queue[0]] + s.queue[1..];
    }
  }

  lemma OrderByTaking(s: State, taken: seq<Task>)
    requires Enabled(s, WorkerTakes) && InOrder(s, taken)
    ensures InOrder(Next(s, WorkerTakes), taken + [s.tasks[0]])
  {
    assert s.tasks == [s.tasks[0]] + s.tasks[1..];
  }

  lemma OrderKept(s: State, a: Step, taken: seq<Task>)
    requires Phases(s) && Enabled(s, a) && InOrder(s, taken)
    ensures InOrder(Next(s, a), taken + if a.WorkerTakes? then [s.tasks[0]] else [])
  {
    hide InOrder, Next;
    assert taken + [] == taken;
    match a
    case Do(t) => OrderByDo(s, t, taken);
    case DispatcherPops | DispatcherSends => OrderByDispatcher(s, a, taken);
    case WorkerTakes => OrderByTaking(s, taken);
    case _ => OrderUntouched(s, a, taken);
  }

  lemma OrderByDo(s: State, t: Task, taken: seq<Task>)
    requires Phases(s) && Enabled(s, Do(t)) && InOrder(s, taken)
    ensures InOrder(Next(s, Do(t)), taken)
  {
  }

  /** As long as Wait has not been called, Do can be called with any task and submits it, and Wait can be called. */
  lemma CallsAreOpen(max: int, steps: seq<Step>, t: Task)
    requires Run(max, steps).Some? && CallWait !in steps
    ensures Run(max, steps + [Do(t)]).Some? && Run(max, steps + [CallWait]).Some?
    ensures Run(max, steps + [Do(t)]).value.submitted == Run(max, steps).value.submitted + [t]
    ensures Run(max, steps + [CallWait]).value.waiter != NotCalled
  {
    WaitOnlyIfCalled(max, steps);
    assert (steps + [Do(t)])[..|steps|] == (steps + [CallWait])[..|steps|] == steps;
  }

  lemma {:induction false} WaitOnlyIfCalled(max: int, steps: seq<Step>)
    requires Run(max, steps).Some? && CallWait !in steps
    ensures Run(max, steps).value.waiter == NotCalled
  {
    if steps != [] {
      var n := |steps| - 1;
      WaitOnlyIfCalled(max, steps[..n]);
      assert steps[n] in steps;
      WaitStartsOnly(Run(max, steps[..n]).value, steps[n]);
    }
  }

  lemma WaitStartsOnly(s: State, a: Step)
    requires Enabled(s, a) && s.waiter == NotCalled && a != CallWait
    ensures Next(s, a).waiter == NotCalled
  {
  }

  /** There are as many workers as asked for, at least one, and the task channel holds two tasks for each:
      the dispatcher waits with a task exactly while it is full. */
  lemma {:induction false} ChannelBound(max: int, steps: seq<Step>)
    requires Run(max, steps).Some?
    ensures var s := Run(max, steps).value;
            && (if max >= 1 then s.workers == max else s.workers == 1)
            && |s.tasks| <= 2 * s.workers
            && (s.dispatcher.Holding? ==> (Enabled(s, DispatcherSends) <==> |s.tasks| < 2 * s.workers))
            && s.idle + |s.running| + s.exited == s.workers
  {
    RunKeepsInv(max, steps);
    if steps != [] {
      var n := |steps| - 1;
      ChannelBound(max, steps[..n]);
      OneTaskMore(Run(max, steps[..n]).value, steps[n]);
    }
  }

  lemma OneTaskMore(s: State, a: Step)
    requires Enabled(s, a) && |s.tasks| <= 2 * s.workers
    ensures Next(s, a).workers == s.workers && |Next(s, a).tasks| <= 2 * s.workers
  {
  }

  // ----- Wait returns -----

  /** A step of the dispatcher or of a worker. */
  predicate Service(a: Step) {
    !a.Do? && !a.CallWait? && !a.WaiterSteps?
  }

  /** A dispatcher or a worker can take a step. */
  ghost predicate Busy(s: State) {
    exists a :: Service(a) && Enabled(s, a)
  }

  function DispatcherWork(d: Dispatcher): nat {
    match d
    case NotStarted => 3
    case Popping => 2
    case Holding(_) => 5
    case Finishing => 1
    case Ended => 0
  }

  /** How many steps the dispatcher and the workers can still take. */
  function Work(s: State): int {
    4 * |s.queue| + DispatcherWork(s.dispatcher) + 2 * |s.tasks| + |s.running| + s.workers - s.exited
  }

  /** Where the waiter stands relative to the two closings, and how many statements it is from its return
      if nothing sends it back. */
  function Rank(w: Waiter): nat {
    if w.NotCalled? || w.AwaitQueue? || w.ClosingQueue? then 2 else if w.AwaitWorkers? || w.Returned? then 0 else 1
  }

  function Distance(w: Waiter): nat {
    match w
    case NotCalled => 8
    case AwaitQueue => 7
    case ClosingQueue => 6
    case ReadingQueue => 5
    case ReadingTasks => 4
    case ReadingFlag => 3
    case ClosingTasks => 2
    case AwaitWorkers => 1
    case Returned => 0
  }

  /** Every step of the dispatcher or of a worker is one step of work less. */
  lemma ServiceWorks(s: State, a: Step)
    requires Phases(s) && WorkersCounted(s) && Enabled(s, a) && Service(a)
    ensures 0 <= Work(Next(s, a)) < Work(s) && Next(s, a).waiter == s.waiter
  {
    WorkersKept(s, a);
  }

  /** The waiter makes no work, and never comes back behind a closing. */
  lemma WaiterWorks(s: State)
    requires Phases(s) && Enabled(s, WaiterSteps)
    ensures Work(Next(s, WaiterSteps)) == Work(s) && Rank(Next(s, WaiterSteps).waiter) <= Rank(s.waiter)
  {
  }

  lemma SettledMeans(s: State)
    requires Phases(s) && WorkersCounted(s) && !Busy(s)
    ensures s.idle == 0 || s.tasks == []
    ensures s.running == multiset{} && (s.idle > 0 ==> !s.tasksClosed)
    ensures s.dispatcher == Ended || (s.dispatcher == Popping && !s.queueClosed && s.queue == [])
  {
    if s.running != multiset{} {
      var t :| t in s.running;
      assert Enabled(s, WorkerRuns(t));
    }
    assert !Enabled(s, WorkerTakes) && !Enabled(s, WorkerExits) && !Enabled(s, StartDispatcher);
    assert !Enabled(s, DispatcherPops) && !Enabled(s, DispatcherSends) && !Enabled(s, DispatcherEnds);
  }

  /** Once the dispatcher and the workers are at rest, the waiter is not blocked and nothing sends it back;
      unless it closes something they stay at rest. */
  lemma SettledWaiterAdvances(s: State)
    requires Phases(s) && WorkersCounted(s) && !Busy(s) && s.waiter != NotCalled && s.waiter != Returned
    ensures Enabled(s, WaiterSteps)
    ensures var n := Next(s, WaiterSteps);
            && Distance(n.waiter) < Distance(s.waiter)
            && (s.waiter == ClosingQueue || s.waiter == ClosingTasks ==> Rank(n.waiter) < Rank(s.waiter))
            && (s.waiter != ClosingQueue && s.waiter != ClosingTasks ==> !Busy(n))
  {
    SettledMeans(s);
    var n := Next(s, WaiterSteps);
    if s.waiter != ClosingQueue && s.waiter != ClosingTasks {
      forall a | Service(a) ensures !Enabled(n, a) {
        assert !Enabled(s, a);
      }
    }
  }

  // ----- fair executions -----

  /** An execution after the call of Wait; at each instant nothing happens, or one step does. */
  type Trace = nat -> State

  ghost predicate ServiceMoves(s: State, t: State) {
    exists a :: Service(a) && Enabled(s, a) && t == Next(s, a)
  }

  predicate WaiterMoves(s: State, t: State) {
    Enabled(s, WaiterSteps) && t == Next(s, WaiterSteps)
  }

  ghost predicate MovesAt(e: Trace, n: nat) {
    e(n + 1) == e(n) || ServiceMoves(e(n), e(n + 1)) || WaiterMoves(e(n), e(n + 1))
  }

  /** The dispatcher or a worker takes a step at m, or none of them could. */
  ghost predicate ServedAt(e: Trace, m: nat) {
    ServiceMoves(e(m), e(m + 1)) || !Busy(e(m))
  }

  ghost predicate WaitedAt(e: Trace, m: nat) {
    WaiterMoves(e(m), e(m + 1)) || !Enabled(e(m), WaiterSteps)
  }

  /** While the dispatcher or a worker can take a step one of them does in the end, and so does the waiter
      while it can. */
  ghost predicate Fair(e: Trace) {
    && (forall n: nat :: MovesAt(e, n))
    && (forall n: nat :: ServedFrom(e, n))
    && (forall n: nat :: WaitedFrom(e, n))
  }

  ghost predicate ServedFrom(e: Trace, n: nat) {
    exists m: nat :: n <= m && ServedAt(e, m)
  }

  ghost predicate WaitedFrom(e: Trace, n: nat) {
    exists m: nat :: n <= m && WaitedAt(e, m)
  }

  ghost predicate Sound(s: State) {
    Inv(s) && s.waiter != NotCalled && Work(s) >= 0
  }

  lemma {:induction false} StaysSound(e: Trace, n: nat, m: nat)
    requires Fair(e) && Sound(e(n)) && n <= m
    ensures Sound(e(m)) && Work(e(m)) <= Work(e(n)) && Rank(e(m).waiter) <= Rank(e(n).waiter)
    decreases m - n
  {
    if n < m {
      StaysSound(e, n, m - 1);
      assert MovesAt(e, m - 1);
      OneMove(e(m - 1), e(m));
    }
  }

  lemma OneMove(s: State, t: State)
    requires Sound(s) && (t == s || ServiceMoves(s, t) || WaiterMoves(s, t))
    ensures Sound(t) && Work(t) <= Work(s) && Rank(t.waiter) <= Rank(s.waiter)
    ensures ServiceMoves(s, t) ==> Work(t) < Work(s)
  {
    hide Enabled, Next, Phases, WorkersCounted, Conserved, Work;
    if ServiceMoves(s, t) {
      var a :| Service(a) && Enabled(s, a) && t == Next(s, a);
      MoveSound(s, a);
      ServiceWorks(s, a);
    } else if WaiterMoves(s, t) {
      MoveSound(s, WaiterSteps);
      WaiterWorks(s);
    }
  }

  lemma MoveSound(s: State, a: Step)
    requires Inv(s) && s.waiter != NotCalled && Enabled(s, a)
    ensures Inv(Next(s, a)) && Next(s, a).waiter != NotCalled
  {
    hide Inv;
    StepKeepsInv(s, a);
  }

  /** The dispatcher and the workers come to rest. */
  lemma {:induction false} Settles(e: Trace, n: nat) returns (m: nat)
    requires Fair(e) && Sound(e(n))
    ensures n <= m && !Busy(e(m))
    decreases Work(e(n))
  {
    hide MovesAt, ServiceMoves, WaiterMoves, Busy, Work, Sound, Rank;
    assert ServedFrom(e, n);
    m :| n <= m && ServedAt(e, m);
    StaysSound(e, n, m);
    if Busy(e(m)) {
      OneMove(e(m), e(m + 1));
      m := Settles(e, m + 1);
    }
  }

  /** From rest, the next thing that happens is a step of the waiter. */
  lemma {:induction false} FirstWait(e: Trace, n: nat, m: nat) returns (k: nat)
    requires Fair(e) && Sound(e(n)) && !Busy(e(n)) && e(n).waiter != Returned && n <= m && WaitedAt(e, m)
    ensures n <= k && e(k) == e(n) && WaiterMoves(e(k), e(k + 1))
    decreases m - n
  {
    hide Next, Phases, Conserved, WorkersCounted, Work;
    SettledWaiterAdvances(e(n));
    assert MovesAt(e, n);
    if WaiterMoves(e(n), e(n + 1)) {
      k := n;
    } else {
      assert e(n + 1) == e(n) && n < m;
      k := FirstWait(e, n + 1, m);
    }
  }

  /** From rest to the next rest, the waiter is nearer to its return. */
  lemma NextRest(e: Trace, n: nat) returns (m: nat)
    requires Fair(e) && Sound(e(n)) && !Busy(e(n)) && e(n).waiter != Returned
    ensures n <= m && Sound(e(m)) && !Busy(e(m))
    ensures Rank(e(m).waiter) < Rank(e(n).waiter)
            || (Rank(e(m).waiter) == Rank(e(n).waiter) && Distance(e(m).waiter) < Distance(e(n).waiter))
  {
    hide Enabled, Next, Phases, Conserved, WorkersCounted, Busy, Work, Rank, Distance;
    SettledWaiterAdvances(e(n));
    assert WaitedFrom(e, n);
    var w :| n <= w && WaitedAt(e, w);
    var k := FirstWait(e, n, w);
    StaysSound(e, n, k + 1);
    m := k + 1;
    if Busy(e(m)) {
      m := Settles(e, k + 1);
      StaysSound(e, k + 1, m);
    }
  }

  lemma {:induction false} ReturnsFromRest(e: Trace, n: nat) returns (m: nat)
    requires Fair(e) && Sound(e(n)) && !Busy(e(n))
    ensures n <= m && e(m).waiter == Returned
    decreases Rank(e(n).waiter), Distance(e(n).waiter)
  {
    hide Fair, Sound, Busy, Rank, Distance;
    m := n;
    if e(n).waiter != Returned {
      m := NextRest(e, n);
      m := ReturnsFromRest(e, m);
    }
  }

  /** In every fair execution that begins in a reachable state after the call of Wait, Wait returns. */
  lemma WaitReturns(max: int, steps: seq<Step>, e: Trace) returns (m: nat)
    requires Run(max, steps) == Some(e(0)) && e(0).waiter != NotCalled && Fair(e)
    ensures e(m).waiter == Returned && multiset(e(m).executed) == multiset(e(m).submitted)
  {
    hide Run, Fair, Busy, Conserved, Phases;
    RunKeepsInv(max, steps);
    var n := Settles(e, 0);
    StaysSound(e, 0, n);
    m := ReturnsFromRest(e, n);
    StaysSound(e, n, m);
    ReturnedHasRun(e(m));
  }
}
