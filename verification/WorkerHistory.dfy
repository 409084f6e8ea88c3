/** What the worker pool does with a Serve call and with a worker, told from the list of steps. */
module WorkerHistory {
  import opened Options
  import opened WorkerPool
  import IdleClean

  // ----- when Serve refuses -----

  /** In every interleaving, Serve's section under the lock has exactly one outcome, whatever anybody else does:
      it leases a channel if one is ready; otherwise it reserves a new worker while there are fewer workers, live
      and about to be created, than the limit, and refuses when there are as many. */
  lemma ServeOutcome(max: int, steps: seq<Step>, isNil: bool)
    requires Run(max, steps).Some?
    ensures var s := Run(max, steps).value;
            var workers := |Workers(s)| + |s.creating|;
            && (Enabled(s, ServeLease(isNil)) <==> s.ready != [])
            && (Enabled(s, ServeReserve(isNil)) <==> s.ready == [] && workers < max)
            && (Enabled(s, ServeRefuse) <==> s.ready == [] && workers >= max)
  {
    hide Workers;
    RunKeepsInv(max, steps);
  }

  // ----- what becomes of the n-th call -----

  predicate IsServe(a: Step) {
    a.ServeLease? || a.ServeReserve? || a.ServeRefuse?
  }

  /** The outcomes of the calls of Serve, in the order of their sections under the lock. */
  function Serves(steps: seq<Step>): seq<Step> {
    if steps == [] then []
    else Serves(steps[..|steps| - 1]) + if IsServe(steps[|steps| - 1]) then [steps[|steps| - 1]] else []
  }

  function IsNil(a: Step): bool {
    (a.ServeLease? || a.ServeReserve?) && a.isNil
  }

  /** The call is the one with its number, with its task. */
  predicate Genuine(serves: seq<Step>, k: Call) {
    k.id < |serves| && !serves[k.id].ServeRefuse? && k.isNil == IsNil(serves[k.id])
  }

  ghost predicate Recorded(s: State, serves: seq<Step>) {
    && s.nextCall == |serves|
    && (forall n | n in s.refused :: n < |serves| && serves[n].ServeRefuse?)
    && (forall n | n in s.creating :: Genuine(serves, s.creating[n]) && s.creating[n].id == n)
    && (forall c | c in s.leased :: Genuine(serves, s.leased[c]))
    && (forall n | n in s.accepted :: Genuine(serves, s.accepted[n]) && s.accepted[n].id == n)
  }

  lemma ServeRecorded(s: State, serves: seq<Step>, a: Step)
    requires Recorded(s, serves) && Enabled(s, a) && IsServe(a)
    ensures Recorded(Next(s, a), serves + [a])
  {
    var t := Next(s, a);
    assert forall n: nat | n < |serves| :: (serves + [a])[n] == serves[n];
    assert forall n | n in s.creating :: Genuine(serves + [a], s.creating[n]);
    assert forall c | c in s.leased :: Genuine(serves + [a], s.leased[c]);
    assert forall n | n in s.accepted :: Genuine(serves + [a], s.accepted[n]);
    assert !a.ServeRefuse? ==> Genuine(serves + [a], Call(s.nextCall, IsNil(a)));
  }

  lemma OtherRecorded(s: State, serves: seq<Step>, a: Step)
    requires Recorded(s, serves) && Enabled(s, a) && !IsServe(a)
    ensures Recorded(Next(s, a), serves)
  {
    hide Genuine;
    if !ServeStep(a) {
      CallsUntouched(s, a);
    }
  }

  lemma {:induction false} RunRecorded(max: int, steps: seq<Step>)
    requires Run(max, steps).Some?
    ensures Recorded(Run(max, steps).value, Serves(steps))
  {
    hide Recorded, Next, Enabled;
    if steps == [] {
      NothingRecorded(max);
    } else {
      var n := |steps| - 1;
      var s := Run(max, steps[..n]).value;
      RunRecorded(max, steps[..n]);
      if IsServe(steps[n]) {
        ServeRecorded(s, Serves(steps[..n]), steps[n]);
      } else {
        OtherRecorded(s, Serves(steps[..n]), steps[n]);
        assert Serves(steps[..n]) + [] == Serves(steps[..n]);
      }
    }
  }

  lemma NothingRecorded(max: int)
    ensures Recorded(Initial(max), [])
  {
  }

  /** In every interleaving, when nothing begun is left to finish: the n-th call of Serve returned false exactly
      if its section under the lock found no worker ready and the limit reached, and its task has run, once,
      exactly if it was not refused and not nil. */
  lemma CallsAreServed(max: int, steps: seq<Step>, n: nat)
    requires Run(max, steps).Some? && AtRest(Run(max, steps).value) && n < |Serves(steps)|
    ensures var s := Run(max, steps).value;
            && (n in s.refused <==> Serves(steps)[n].ServeRefuse?)
            && (n in s.accepted <==> !Serves(steps)[n].ServeRefuse?)
            && Occurs(s.executed, n) == One(!Serves(steps)[n].ServeRefuse? && !IsNil(Serves(steps)[n]))
  {
    hide Run, AtRest, Occurs, Enabled, Workers;
    RunRecorded(max, steps);
    RestIsComplete(max, steps, n);
    RunKeepsInv(max, steps);
    var s := Run(max, steps).value;
    assert JobOnce(s, n);
  }

  // ----- which worker is taken and which are cleaned -----

  /** One more than the position of the last step that made c ready; 0 if there is none. */
  function LastRelease(steps: seq<Step>, c: Chan): nat {
    if steps == [] then 0
    else if steps[|steps| - 1] == Release(c) then |steps|
    else LastRelease(steps[..|steps| - 1], c)
  }

  lemma {:induction false} ReleasedBefore(steps: seq<Step>, c: Chan)
    ensures LastRelease(steps, c) <= |steps|
  {
    if steps != [] {
      ReleasedBefore(steps[..|steps| - 1], c);
    }
  }

  /** The ready list is in the order of the last releases. */
  ghost predicate InReleaseOrder(ready: seq<Chan>, steps: seq<Step>) {
    forall i, j | 0 <= i < j < |ready| :: LastRelease(steps, ready[i]) < LastRelease(steps, ready[j])
  }

  lemma ReleaseOrderKept(s: State, steps: seq<Step>, a: Step)
    requires OneSeat(s) && Enabled(s, a) && InReleaseOrder(s.ready, steps)
    ensures InReleaseOrder(Next(s, a).ready, steps + [a])
  {
    hide LastRelease, Occurs;
    var more, t := steps + [a], Next(s, a);
    assert more[..|steps|] == steps;
    forall c: Chan ensures LastRelease(more, c) == if a == Release(c) then |more| else LastRelease(steps, c) {
      OneMoreRelease(steps, a, c);
    }
    if a.Release? {
      assert SeatedOnce(s, a.c);
      OccursIn(s.ready, a.c);
      forall i | 0 <= i < |s.ready| ensures s.ready[i] != a.c && LastRelease(more, s.ready[i]) < |more| {
        ReleasedBefore(steps, s.ready[i]);
      }
    } else {
      ReadyShrinks(s, a);
    }
  }

  lemma OneMoreRelease(steps: seq<Step>, a: Step, c: Chan)
    ensures LastRelease(steps + [a], c) == if a == Release(c) then |steps| + 1 else LastRelease(steps, c)
  {
    assert (steps + [a])[..|steps|] == steps;
  }

  /** Every step but a release leaves a stretch of the ready list. */
  lemma ReadyShrinks(s: State, a: Step)
    requires Enabled(s, a) && !a.Release?
    ensures var t := Next(s, a);
            || t.ready == s.ready || t.ready == []
            || (a.ServeLease? && t.ready == s.ready[..|s.ready| - 1])
            || (a.CleanCut? && t.ready == s.ready[a.n..])
  {
  }

  lemma {:induction false} RunInReleaseOrder(max: int, steps: seq<Step>)
    requires Run(max, steps).Some?
    ensures InReleaseOrder(Run(max, steps).value.ready, steps)
  {
    hide InReleaseOrder, Next, Enabled;
    if steps == [] {
      NothingReady(max);
    } else {
      var n := |steps| - 1;
      RunInReleaseOrder(max, steps[..n]);
      RunKeepsInv(max, steps[..n]);
      ReleaseOrderKept(Run(max, steps[..n]).value, steps[..n], steps[n]);
      assert steps == steps[..n] + [steps[n]];
    }
  }

  lemma NothingReady(max: int)
    ensures InReleaseOrder(Initial(max).ready, [])
  {
  }

  lemma InPrefix(cs: seq<Chan>, n: nat, k: nat)
    requires k < |cs| && n <= |cs|
    ensures k < n ==> cs[k] in cs[..n]
    ensures k >= n ==> cs[k] in cs[n..]
  {
    if k < n {
      assert cs[..n][k] == cs[k];
    } else {
      assert cs[n..][k - n] == cs[k];
    }
  }

  lemma LeaseTakesNewest(s: State, steps: seq<Step>, isNil: bool, c: Chan, other: Chan)
    requires InReleaseOrder(s.ready, steps) && Enabled(s, ServeLease(isNil))
    requires var t := Next(s, ServeLease(isNil)); c in s.ready && c !in t.ready && other in t.ready
    ensures c in Next(s, ServeLease(isNil)).leased && LastRelease(steps, other) < LastRelease(steps, c)
  {
    hide LastRelease;
    var n := |s.ready| - 1;
    var i :| 0 <= i < |s.ready| && s.ready[i] == c;
    InPrefix(s.ready, n, i);
    var j :| 0 <= j < n && s.ready[..n][j] == other;
    assert s.ready[j] == other && i == n;
  }

  lemma CleanTakesOldest(s: State, steps: seq<Step>, n: nat, c: Chan, other: Chan)
    requires InReleaseOrder(s.ready, steps) && Enabled(s, CleanCut(n))
    requires var t := Next(s, CleanCut(n)); c in s.ready && c !in t.ready && other in t.ready
    ensures c in Next(s, CleanCut(n)).scratch && LastRelease(steps, c) < LastRelease(steps, other)
  {
    hide LastRelease;
    var i :| 0 <= i < |s.ready| && s.ready[i] == c;
    InPrefix(s.ready, n, i);
    var j :| 0 <= j < |s.ready| - n && s.ready[n..][j] == other;
    assert s.ready[n + j] == other && i < n;
  }

  /** In every interleaving Serve leases the worker that became ready last of all, and the cleaner takes those
      that became ready before all that stay. */
  lemma NewestServedOldestCleaned(max: int, steps: seq<Step>, a: Step, c: Chan, other: Chan)
    requires Run(max, steps).Some? && Enabled(Run(max, steps).value, a) && (a.ServeLease? || a.CleanCut?)
    requires var s := Run(max, steps).value;
             c in s.ready && c !in Next(s, a).ready && other in Next(s, a).ready
    ensures a.ServeLease? ==>
              c in Next(Run(max, steps).value, a).leased && LastRelease(steps, other) < LastRelease(steps, c)
    ensures a.CleanCut? ==>
              c in Next(Run(max, steps).value, a).scratch && LastRelease(steps, c) < LastRelease(steps, other)
  {
    hide Run, Next, Enabled, InReleaseOrder;
    RunInReleaseOrder(max, steps);
    match a
    case ServeLease(isNil) => LeaseTakesNewest(Run(max, steps).value, steps, isNil, c, other);
    case CleanCut(n) => CleanTakesOldest(Run(max, steps).value, steps, n, c, other);
  }

  // ----- workers end when, and only when, there is a reason -----

  /** The worker of the channel runs no task any more: it has been taken off the ready list to stop, has a nil
      to receive, or is ending. */
  predicate Retiring(s: State, c: Chan) {
    && c !in s.ready && c !in s.leased
    && (c in s.pending ==> s.pending[c].Quit? || s.pending[c].call.isNil)
    && (c in s.busy ==> s.busy[c].Exiting? || s.busy[c].Putting?)
  }

  /** Such a worker never runs a task or becomes ready again; only a new worker on the same channel can. */
  lemma RetiringKept(s: State, a: Step, c: Chan)
    requires SeatedOnce(s, c) && Enabled(s, a) && Retiring(s, c) && !(a.ServeCreate? && CreatedOn(s, a) == c)
    ensures Retiring(Next(s, a), c)
    ensures a != RunTask(c) && a != Release(c)
  {
    hide Occurs;
    OccursIn(s.ready, c);
    if a.ServeLease? {
      assert s.ready[|s.ready| - 1] in s.ready;
    }
  }

  /** The cleaner retires the workers it cuts off, Stop all that are ready, and a nil task the worker that
      receives it; Stop also retires each worker that would become ready afterwards. */
  lemma StepRetires(s: State, a: Step, c: Chan)
    requires SeatedOnce(s, c) && Enabled(s, a)
    ensures a.CleanCut? && c in s.ready[..a.n] ==> Retiring(Next(s, a), c)
    ensures a.StopAll? && c in s.ready ==> Retiring(Next(s, a), c)
    ensures a == ServeSend(c) && s.leased[c].isNil ==> Retiring(Next(s, a), c)
    ensures a == ReleaseRefused(c) ==> Retiring(Next(s, a), c)
    ensures s.mustStop ==> a != Release(c)
  {
    hide Occurs;
    OccursIn(s.ready, c);
    OccursIn(s.scratch, c);
    if a.CleanCut? && c in s.ready[..a.n] {
      OccursSplit(s.ready, a.n, c);
      OccursIn(s.ready[..a.n], c);
      OccursIn(s.ready[a.n..], c);
    }
  }

  /** A step that gives a worker a reason to end. */
  predicate GivesReason(a: Step) {
    a.CleanCut? || a.StopAll? || IsNil(a)
  }

  function Reserves(steps: seq<Step>): nat {
    if steps == [] then 0 else Reserves(steps[..|steps| - 1]) + One(steps[|steps| - 1].ServeReserve?)
  }

  ghost predicate NobodyEnds(s: State, reserved: nat) {
    && !s.mustStop && s.scratch == [] && s.pool == {} && s.workersCount == reserved
    && (forall n | n in s.creating :: !s.creating[n].isNil)
    && (forall c | c in s.leased :: !s.leased[c].isNil)
    && (forall c | c in s.pending :: s.pending[c].Job? && !s.pending[c].call.isNil)
    && (forall c | c in s.busy :: s.busy[c].Running? || s.busy[c].Releasing?)
  }

  lemma NobodyEndsKept(s: State, a: Step, reserved: nat)
    requires NobodyEnds(s, reserved) && Enabled(s, a) && !GivesReason(a)
    ensures NobodyEnds(Next(s, a), reserved + One(a.ServeReserve?))
  {
  }

  /** Without a reason no worker ends: each that was ever reserved is still counted, so that workers are reused
      rather than created anew. */
  lemma {:induction false} WorkersStay(max: int, steps: seq<Step>)
    requires Run(max, steps).Some? && forall a | a in steps :: !GivesReason(a)
    ensures NobodyEnds(Run(max, steps).value, Reserves(steps))
  {
    hide NobodyEnds, Enabled, Next, GivesReason;
    if steps == [] {
      NobodyYet(max);
    } else {
      var n := |steps| - 1;
      assert forall a | a in steps[..n] :: a in steps;
      WorkersStay(max, steps[..n]);
      assert steps[n] in steps;
      NobodyEndsKept(Run(max, steps[..n]).value, steps[n], Reserves(steps[..n]));
    }
  }

  lemma NobodyYet(max: int)
    ensures NobodyEnds(Initial(max), 0)
  {
  }

  // ----- after Stop -----

  lemma {:induction false} StopRecorded(max: int, steps: seq<Step>)
    requires Run(max, steps).Some?
    ensures Run(max, steps).value.mustStop <==> StopAll in steps
  {
    if steps != [] {
      var n := |steps| - 1;
      StopRecorded(max, steps[..n]);
      StopSticks(Run(max, steps[..n]).value, steps[n]);
      assert steps == steps[..n] + [steps[n]];
    }
  }

  lemma StopSticks(s: State, a: Step)
    requires Enabled(s, a)
    ensures Next(s, a).mustStop <==> s.mustStop || a == StopAll
  {
  }

  /** After Stop, when nothing begun is left to finish, there is no worker. */
  lemma StopEndsAll(max: int, steps: seq<Step>)
    requires Run(max, steps).Some? && StopAll in steps && AtRest(Run(max, steps).value)
    ensures Run(max, steps).value.workersCount == 0 && Workers(Run(max, steps).value) == {}
  {
    hide Run, AtRest, Workers;
    StopRecorded(max, steps);
    RestIsComplete(max, steps, 0);
  }

  // ----- no channel gets lost -----

  /** In every interleaving in which the pool drops nothing, every channel that was ever created is in exactly
      one place. */
  lemma {:induction false} NoChannelLost(max: int, steps: seq<Step>, c: Chan)
    requires Run(max, steps).Some? && forall a | a in steps :: !a.PoolDrops?
    ensures Seats(Run(max, steps).value, c) == One(c < Run(max, steps).value.nextChan)
  {
    hide Seats, Enabled, Next, SeatedOnce;
    if steps == [] {
      NoSeatYet(max, c);
    } else {
      var n := |steps| - 1;
      var s := Run(max, steps[..n]).value;
      assert forall a | a in steps[..n] :: a in steps;
      NoChannelLost(max, steps[..n], c);
      assert steps[n] in steps;
      RunKeepsInv(max, steps[..n]);
      SeatsKept(s, steps[n], c);
      ChannelsGrow(s, steps[n]);
    }
  }

  lemma NoSeatYet(max: int, c: Chan)
    ensures Seats(Initial(max), c) == 0
  {
  }

  // ----- nobody waits to send, and what is open to whom -----

  /** In every interleaving no send blocks: neither that of a Serve call with its channel, nor the cleaner's, nor
      those Stop makes under the lock. */
  lemma SendsNeverBlock(max: int, steps: seq<Step>, c: Chan)
    requires Run(max, steps).Some?
    ensures var s := Run(max, steps).value;
            && (c in s.leased ==> Enabled(s, ServeSend(c)))
            && (s.scratch != [] ==> Enabled(s, CleanSend))
            && Enabled(s, StopAll)
  {
    hide Run, Occurs;
    RunKeepsInv(max, steps);
    var s := Run(max, steps).value;
    assert SeatedOnce(s, c);
    if s.scratch != [] {
      assert SeatedOnce(s, s.scratch[0]);
      OccursIn(s.scratch, s.scratch[0]);
    }
    forall r | r in s.ready ensures r !in s.pending {
      assert SeatedOnce(s, r);
      OccursIn(s.ready, r);
    }
  }

  /** A call that has reserved a worker creates it on a new channel or on any channel of the pool, and holds that
      channel next; once the worker has ended its channel is in the pool, which may drop it at any time. */
  lemma ChannelsAreReused(s: State, id: nat, c: Chan)
    requires id in s.creating
    ensures Enabled(s, ServeCreate(id, Some(c))) <==> c in s.pool
    ensures Enabled(s, ServeCreate(id, None)) && s.nextChan in Next(s, ServeCreate(id, None)).leased
    ensures c in s.pool ==> Next(s, ServeCreate(id, Some(c))).leased == s.leased[c := s.creating[id]]
    ensures Enabled(s, Put(c)) ==> c in Next(s, Put(c)).pool
    ensures c in s.pool ==> Enabled(s, PoolDrops(c)) && c !in Next(s, PoolDrops(c)).pool
  {
  }

  /** Whatever the stamps of the ready workers, the cleaner can cut where it decides to, by scanning or by binary
      search, and takes exactly the channels before the cut. */
  lemma CleanerCuts(s: State, ws: seq<IdleClean.Slot>, now: int, idle: int)
    requires s.scratch == [] && |ws| == |s.ready|
    ensures var n := IdleClean.StalePrefix(ws, now, idle);
            && Enabled(s, CleanCut(n))
            && Next(s, CleanCut(n)).scratch == s.ready[..n] && Next(s, CleanCut(n)).ready == s.ready[n..]
    ensures Enabled(s, CleanCut(IdleClean.Cut(ws, now, idle, 0, |ws| - 1)))
  {
  }
}
