/** Callers of Put and Empty against ioLoop and exit: who gets which answer, and who can be left waiting.
    Callers share one response channel per kind of request; the read lock is held for a whole call. */
module DiskPairing {
  import opened Options

  datatype Kind = PutCall | EmptyCall

  /** What a call returns: the result ioLoop computed for the numbered call, or the "exiting" error. */
  datatype Outcome = ResultOf(call: nat) | ExitingError

  /** Before RLock, holding it but not having read exitFlag, blocked in the send, blocked in the receive,
      about to RUnlock, returned. */
  datatype Caller = Entering(kind: Kind) | Inside(kind: Kind) | Sending(kind: Kind) | Awaiting(kind: Kind)
                  | Leaving(out: Outcome) | Returned(out: Outcome)

  datatype Loop = Selecting | Replying(kind: Kind, call: nat) | Stopping | Gone

  /** exit: not called, blocked in Lock, holding the lock with exitFlag set, exitChan closed, exitSyncChan
      received, unlocked. */
  datatype Exit = NotCalled | WaitingLock | HasLock | ChanClosed | Synced | Finished

  datatype State = State(callers: map<nat, Caller>, loop: Loop, exit: Exit, exitFlag: bool)

  const INITIAL := State(map[], Selecting, NotCalled, false)

  datatype Step = Call(id: nat, kind: Kind) | RLock(id: nat) | ReadFlag(id: nat) | Accept(id: nat) | Reply(id: nat)
                | RUnlock(id: nat) | CallExit | ExitLock | CloseChan | LoopStops | SyncExit | ExitUnlock

  predicate Reading(c: Caller) {
    c.Inside? || c.Sending? || c.Awaiting? || c.Leaving?
  }

  predicate WriteLocked(e: Exit) {
    e.HasLock? || e.ChanClosed? || e.Synced?
  }

  predicate Enabled(s: State, a: Step) {
    match a
    case Call(id, _) => id !in s.callers
    case RLock(id) => id in s.callers && s.callers[id].Entering? && !WriteLocked(s.exit)
    case ReadFlag(id) => id in s.callers && s.callers[id].Inside?
    case Accept(id) => id in s.callers && s.callers[id].Sending? && s.loop == Selecting
    case Reply(id) => id in s.callers && s.loop.Replying? && s.callers[id] == Awaiting(s.loop.kind)
    case RUnlock(id) => id in s.callers && s.callers[id].Leaving?
    case CallExit => s.exit == NotCalled
    case ExitLock => s.exit == WaitingLock && forall id | id in s.callers :: !Reading(s.callers[id])
    case CloseChan => s.exit == HasLock
    case LoopStops => s.loop == Selecting && (s.exit == ChanClosed || s.exit == Synced || s.exit == Finished)
    case SyncExit => s.loop == Stopping && s.exit == ChanClosed
    case ExitUnlock => s.exit == Synced
  }

  function Next(s: State, a: Step): State
    requires Enabled(s, a)
  {
    match a
    case Call(id, kind) => s.(callers := s.callers[id := Entering(kind)])
    case RLock(id) => s.(callers := s.callers[id := Inside(s.callers[id].kind)])
    case ReadFlag(id) =>
      s.(callers := s.callers[id := if s.exitFlag then Leaving(ExitingError) else Sending(s.callers[id].kind)])
    case Accept(id) =>
      var kind := s.callers[id].kind;
      s.(callers := s.callers[id := Awaiting(kind)], loop := Replying(kind, id))
    case Reply(id) => s.(callers := s.callers[id := Leaving(ResultOf(s.loop.call))], loop := Selecting)
    case RUnlock(id) => s.(callers := s.callers[id := Returned(s.callers[id].out)])
    case CallExit => s.(exit := WaitingLock)
    case ExitLock => s.(exit := HasLock, exitFlag := true)
    case CloseChan => s.(exit := ChanClosed)
    case LoopStops => s.(loop := Stopping)
    case SyncExit => s.(loop := Gone, exit := Synced)
    case ExitUnlock => s.(exit := Finished)
  }

  function Run(steps: seq<Step>): Option<State> {
    if steps == [] then Some(INITIAL)
    else
      var before := Run(steps[..|steps| - 1]);
      if before.None? || !Enabled(before.value, steps[|steps| - 1]) then None
      else Some(Next(before.value, steps[|steps| - 1]))
  }

  /** What holds of one caller in every reachable state. */
  predicate CallerOk(s: State, id: nat)
    requires id in s.callers
  {
    var c := s.callers[id];
    // exactly the caller being served is waiting for an answer
    && (c.Awaiting? <==> s.loop.Replying? && s.loop.call == id)
    && (c.Awaiting? ==> s.loop.kind == c.kind)
    // an answer is the answer to the caller's own request
    && ((c.Leaving? || c.Returned?) && c.out.ResultOf? ==> c.out.call == id)
    // the write lock keeps callers out, and the flag stops those that come later
    && (WriteLocked(s.exit) ==> !Reading(c))
    && (s.exitFlag ==> !c.Sending? && !c.Awaiting?)
  }

  ghost predicate Inv(s: State) {
    && (forall id | id in s.callers :: CallerOk(s, id))
    && (s.loop.Replying? ==> s.loop.call in s.callers)
    && (s.exitFlag <==> WriteLocked(s.exit) || s.exit == Finished)
    && (s.loop == Stopping ==> s.exit == ChanClosed)
    && (s.loop == Gone <==> s.exit == Synced || s.exit == Finished)
  }

  lemma StepKeepsInv(s: State, a: Step)
    requires Inv(s) && Enabled(s, a)
    ensures Inv(Next(s, a))
  {
    var t := Next(s, a);
    forall id | id in t.callers ensures CallerOk(t, id) {
      assert id in s.callers ==> CallerOk(s, id);
      if s.loop.Replying? {
        assert CallerOk(s, s.loop.call);
      }
    }
  }

  lemma {:induction false} RunKeepsInv(steps: seq<Step>)
    requires Run(steps).Some?
    ensures Inv(Run(steps).value)
  {
    if steps != [] {
      var n := |steps| - 1;
      RunKeepsInv(steps[..n]);
      StepKeepsInv(Run(steps[..n]).value, steps[n]);
    }
  }

  /** In every interleaving an answer goes to the caller whose request it answers, and once ioLoop has
      returned no caller is blocked in a send or a receive: when exit has unlocked, each call that has
      not returned can take its next step. */
  lemma AnswersArePaired(steps: seq<Step>, id: nat)
    requires Run(steps).Some? && id in Run(steps).value.callers
    ensures var s := Run(steps).value;
            var c := s.callers[id];
            && (c.Returned? ==> c.out == ResultOf(id) || c.out == ExitingError)
            && (Enabled(s, Reply(id)) ==> s.loop.call == id)
            && (s.loop == Gone ==> !c.Sending? && !c.Awaiting?)
            && (s.exit == Finished && !c.Returned? ==>
                  Enabled(s, RLock(id)) || Enabled(s, ReadFlag(id)) || Enabled(s, RUnlock(id)))
  {
    RunKeepsInv(steps);
    assert CallerOk(Run(steps).value, id);
  }

  /** A step that is not the arrival of a new call. */
  predicate Internal(a: Step) {
    !a.Call? && !a.CallExit?
  }

  /** A call that has not returned, or an exit that has been called and has not finished. */
  ghost predicate Unfinished(s: State) {
    || (exists id | id in s.callers :: !s.callers[id].Returned?)
    || (s.exit != NotCalled && s.exit != Finished)
  }

  /** A caller that holds the read lock, or ioLoop, can take a step. */
  lemma ReaderMoves(s: State, id: nat) returns (a: Step)
    requires Inv(s) && id in s.callers && Reading(s.callers[id])
    ensures Internal(a) && Enabled(s, a)
  {
    assert CallerOk(s, id);
    match s.callers[id]
    case Inside(_) => a := ReadFlag(id);
    case Awaiting(_) => a := Reply(id);
    case Leaving(_) => a := RUnlock(id);
    case Sending(_) =>
      if s.loop == Selecting {
        a := Accept(id);
      } else {
        assert s.loop.Replying? ==> CallerOk(s, s.loop.call);
        a := Reply(s.loop.call);
      }
  }

  /** Whatever exit is blocked in, somebody can take a step. */
  lemma ExitMoves(s: State) returns (a: Step)
    requires Inv(s) && s.exit != NotCalled && s.exit != Finished
    ensures Internal(a) && Enabled(s, a)
  {
    match s.exit
    case WaitingLock =>
      if id :| id in s.callers && Reading(s.callers[id]) {
        a := ReaderMoves(s, id);
      } else {
        a := ExitLock;
      }
    case HasLock => a := CloseChan;
    case ChanClosed =>
      assert s.loop.Replying? ==> CallerOk(s, s.loop.call);
      a := if s.loop == Selecting then LoopStops else SyncExit;
    case Synced => a := ExitUnlock;
  }

  /** There is no deadlock: in every interleaving, while a call or exit is unfinished, some caller, exit or
      ioLoop can take a step. */
  lemma NoDeadlock(steps: seq<Step>) returns (a: Step)
    requires Run(steps).Some? && Unfinished(Run(steps).value)
    ensures Internal(a) && Enabled(Run(steps).value, a)
  {
    hide Run;
    RunKeepsInv(steps);
    var s := Run(steps).value;
    if s.exit != NotCalled && s.exit != Finished {
      a := ExitMoves(s);
    } else {
      var id :| id in s.callers && !s.callers[id].Returned?;
      if Reading(s.callers[id]) {
        a := ReaderMoves(s, id);
      } else {
        a := RLock(id);
      }
    }
  }

  // ----- who is told that the queue is exiting -----

  /** exit had set its flag when the caller took the read lock. */
  predicate LockedLate(steps: seq<Step>, id: nat) {
    steps != []
    && var n := |steps| - 1;
       if steps[n] == RLock(id) then ExitLock in steps[..n] else LockedLate(steps[..n], id)
  }

  lemma {:induction false} LockedLateMeans(steps: seq<Step>, id: nat)
    ensures LockedLate(steps, id) <==>
            exists i, j :: 0 <= i < j < |steps| && steps[i] == ExitLock && steps[j] == RLock(id)
  {
    if steps != [] {
      var n := |steps| - 1;
      var before := steps[..n];
      LockedLateMeans(before, id);
      assert forall i | 0 <= i < n :: before[i] == steps[i];
      if LockedLate(steps, id) {
        if steps[n] == RLock(id) {
          var i :| 0 <= i < n && before[i] == ExitLock;
          assert steps[i] == ExitLock && steps[n] == RLock(id);
        } else {
          var i, j :| 0 <= i < j < n && before[i] == ExitLock && before[j] == RLock(id);
          assert steps[i] == ExitLock && steps[j] == RLock(id);
        }
      }
      if i, j :| 0 <= i < j < |steps| && steps[i] == ExitLock && steps[j] == RLock(id) {
        assert before[i] == ExitLock;
        assert j < n ==> before[j] == RLock(id);
      }
    }
  }

  /** What the steps so far say of a caller: whether it locked late decides what it is told. */
  predicate Told(s: State, steps: seq<Step>, id: nat)
    requires id in s.callers
  {
    match s.callers[id]
    case Entering(_) => true
    case Inside(_) => s.exitFlag == LockedLate(steps, id)
    case Sending(_) | Awaiting(_) => !LockedLate(steps, id)
    case Leaving(out) => out == (if LockedLate(steps, id) then ExitingError else ResultOf(id))
    case Returned(out) => out == (if LockedLate(steps, id) then ExitingError else ResultOf(id))
  }

  lemma StepTold(s: State, steps: seq<Step>, a: Step, id: nat)
    requires Inv(s) && Enabled(s, a) && id in Next(s, a).callers
    requires s.exitFlag <==> ExitLock in steps
    requires id in s.callers ==> Told(s, steps, id)
    ensures Told(Next(s, a), steps + [a], id)
    ensures Next(s, a).exitFlag <==> ExitLock in steps + [a]
  {
    assert (steps + [a])[..|steps|] == steps;
    assert LockedLate(steps + [a], id) == if a == RLock(id) then ExitLock in steps else LockedLate(steps, id);
    if id in s.callers {
      assert CallerOk(s, id);
    }
  }

  lemma {:induction false} RunTold(steps: seq<Step>)
    requires Run(steps).Some?
    ensures Run(steps).value.exitFlag <==> ExitLock in steps
    ensures forall id | id in Run(steps).value.callers :: Told(Run(steps).value, steps, id)
  {
    if steps != [] {
      hide Inv, Enabled, Next, Told;
      var n := |steps| - 1;
      RunTold(steps[..n]);
      RunKeepsInv(steps[..n]);
      var s := Run(steps[..n]).value;
      assert steps == steps[..n] + [steps[n]];
      FlagRecorded(s, steps[..n], steps[n]);
      forall id | id in Run(steps).value.callers ensures Told(Run(steps).value, steps, id) {
        StepTold(s, steps[..n], steps[n], id);
      }
    }
  }

  lemma FlagRecorded(s: State, steps: seq<Step>, a: Step)
    requires Inv(s) && Enabled(s, a) && (s.exitFlag <==> ExitLock in steps)
    ensures Next(s, a).exitFlag <==> ExitLock in steps + [a]
  {
  }

  /** In every interleaving a call returns the "exiting" error exactly if it took the read lock after exit had
      taken its lock, and otherwise the result of its own request. */
  lemma OutcomeIff(steps: seq<Step>, id: nat)
    requires Run(steps).Some? && id in Run(steps).value.callers && Run(steps).value.callers[id].Returned?
    ensures var late := exists i, j :: 0 <= i < j < |steps| && steps[i] == ExitLock && steps[j] == RLock(id);
            Run(steps).value.callers[id].out == if late then ExitingError else ResultOf(id)
  {
    hide Run;
    RunTold(steps);
    assert Told(Run(steps).value, steps, id);
    LockedLateMeans(steps, id);
  }

  // ----- every call returns -----

  function Rank(c: Caller): nat {
    match c
    case Entering(_) => 5
    case Inside(_) => 4
    case Sending(_) => 3
    case Awaiting(_) => 2
    case Leaving(_) => 1
    case Returned(_) => 0
  }

  function Level(callers: map<nat, Caller>, k: nat): set<nat> {
    set id | id in callers && Rank(callers[id]) >= k
  }

  function CallersLeft(callers: map<nat, Caller>): nat {
    |Level(callers, 1)| + |Level(callers, 2)| + |Level(callers, 3)| + |Level(callers, 4)| + |Level(callers, 5)|
  }

  function ExitLeft(e: Exit): nat {
    match e
    case WaitingLock => 4
    case HasLock => 3
    case ChanClosed => 2
    case Synced => 1
    case _ => 0
  }

  /** How many steps callers, exit and ioLoop can still take if nobody else calls. */
  function Left(s: State): nat {
    CallersLeft(s.callers) + ExitLeft(s.exit) + (if s.loop.Selecting? || s.loop.Replying? then 1 else 0)
  }

  lemma LevelSet(callers: map<nat, Caller>, id: nat, c: Caller, k: nat)
    requires id in callers && Rank(c) < Rank(callers[id])
    ensures |Level(callers[id := c], k)| == |Level(callers, k)| - if Rank(c) < k <= Rank(callers[id]) then 1 else 0
  {
    assert Level(callers[id := c], k) == Level(callers, k) - if Rank(c) < k <= Rank(callers[id]) then {id} else {};
  }

  lemma CallerMoves(callers: map<nat, Caller>, id: nat, c: Caller)
    requires id in callers && Rank(c) < Rank(callers[id])
    ensures CallersLeft(callers[id := c]) < CallersLeft(callers)
  {
    hide Level;
    LevelSet(callers, id, c, 1);
    LevelSet(callers, id, c, 2);
    LevelSet(callers, id, c, 3);
    LevelSet(callers, id, c, 4);
    LevelSet(callers, id, c, 5);
  }

  /** Every step that is not a new call is one less to come. */
  lemma InternalMoves(s: State, a: Step)
    requires Enabled(s, a) && Internal(a)
    ensures Left(Next(s, a)) < Left(s)
  {
    hide CallersLeft;
    if a.RLock? || a.ReadFlag? || a.Accept? || a.Reply? || a.RUnlock? {
      CallerMoves(s.callers, a.id, Next(s, a).callers[a.id]);
    }
  }

  /** The caller is there, and still asks for what it was called for. */
  predicate Registered(s: State, id: nat, kind: Kind) {
    && id in s.callers
    && var c := s.callers[id];
       c.Entering? || c.Inside? || c.Sending? || c.Awaiting? ==> c.kind == kind
  }

  lemma StepRegisters(s: State, a: Step, id: nat, kind: Kind)
    requires Enabled(s, a) && (Registered(s, id, kind) || a == Call(id, kind))
    ensures Registered(Next(s, a), id, kind)
  {
  }

  lemma ExitStarts(s: State, a: Step)
    requires Enabled(s, a) && (s.exit != NotCalled || a == CallExit)
    ensures Next(s, a).exit != NotCalled
  {
  }

  lemma {:induction false} CallsRecorded(steps: seq<Step>, id: nat, kind: Kind)
    requires Run(steps).Some?
    ensures Call(id, kind) in steps ==> Registered(Run(steps).value, id, kind)
    ensures CallExit in steps ==> Run(steps).value.exit != NotCalled
  {
    hide Registered, Enabled, Next;
    if steps != [] {
      var n := |steps| - 1;
      CallsRecorded(steps[..n], id, kind);
      assert steps == steps[..n] + [steps[n]];
      if Call(id, kind) in steps {
        StepRegisters(Run(steps[..n]).value, steps[n], id, kind);
      }
      if CallExit in steps {
        ExitStarts(Run(steps[..n]).value, steps[n]);
      }
    }
  }

  /** A call can be made at any time under a fresh number, and exit as long as it has not been called. */
  lemma AnyoneMayCall(steps: seq<Step>, id: nat, kind: Kind)
    requires Run(steps).Some?
    ensures id !in Run(steps).value.callers ==> Run(steps + [Call(id, kind)]).Some?
    ensures CallExit !in steps ==> Run(steps + [CallExit]).Some?
  {
    ExitOnlyIfCalled(steps);
    assert (steps + [CallExit])[..|steps|] == (steps + [Call(id, kind)])[..|steps|] == steps;
  }

  lemma {:induction false} ExitOnlyIfCalled(steps: seq<Step>)
    requires Run(steps).Some?
    ensures Run(steps).value.exit != NotCalled ==> CallExit in steps
  {
    if steps != [] {
      var n := |steps| - 1;
      ExitOnlyIfCalled(steps[..n]);
      ExitStartsOnly(Run(steps[..n]).value, steps[n]);
      assert steps == steps[..n] + [steps[n]];
    }
  }

  lemma ExitStartsOnly(s: State, a: Step)
    requires Enabled(s, a)
    ensures Next(s, a).exit != NotCalled ==> s.exit != NotCalled || a == CallExit || a == LoopStops || a == SyncExit
    ensures a == LoopStops || a == SyncExit ==> s.exit != NotCalled
  {
  }

  /** In every interleaving, when no step is left but new calls, every call of Put and Empty has returned, and
      exit has if it was called. */
  lemma EveryCallReturns(steps: seq<Step>, id: nat, kind: Kind)
    requires Run(steps).Some? && forall a | Internal(a) :: !Enabled(Run(steps).value, a)
    ensures var s := Run(steps).value;
            && (Call(id, kind) in steps ==> id in s.callers && s.callers[id].Returned?)
            && (CallExit in steps ==> s.exit == Finished)
  {
    hide Run;
    CallsRecorded(steps, id, kind);
    if Unfinished(Run(steps).value) {
      var a := NoDeadlock(steps);
    }
  }
}
