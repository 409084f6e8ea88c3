/** What New recovers when the process dies while ioLoop is blocked in select. */
module DiskCrash {
  import opened Options
  import opened DiskFrames
  import opened DiskModel
  import opened DiskFifo

  /** A directory that may be found after a crash: the metadata file is replaced atomically, fsynced
      bytes are durable, no file has grown. Files that were never fsynced, or that had been removed,
      may hold anything or be missing. */
  ghost predicate CrashImage(d: Disk, found: Disk) {
    && found.meta == d.meta
    && (forall f | f in d.synced && f in d.files ::
          && f in found.files
          && d.synced[f] <= |found.files[f]| <= |d.files[f]|
          && found.files[f][..d.synced[f]] == d.files[f][..d.synced[f]])
  }

  /** The recovered cursors, depth and files denote the queue `msgs`. */
  ghost predicate Recovers(p: Params, q: Queue, msgs: seq<Message>) {
    && Chain(p, q.disk.files, q.readFileNum, q.readPos, q.writeFileNum, q.writePos, msgs)
    && q.depth == |msgs|
  }

  /** Bookkeeping of fsync: nothing but the open write file can hold bytes that are not durable. */
  ghost predicate FsyncedDisk(d: Disk, wf: nat) {
    && (forall f | f in d.synced :: f in d.files && d.synced[f] <= |d.files[f]|)
    && (forall f | f in d.files && f < wf :: f in d.synced && d.synced[f] == |d.files[f]|)
  }

  /** `first` says that the queue is in its first lifetime, not yet closed and reopened: only then is the
      write file, when it has bytes, also the one a sync reaches. */
  ghost predicate Fsynced(first: bool, q: Queue) {
    && FsyncedDisk(q.disk, q.writeFileNum)
    && (first && q.writePos > 0 ==> q.writeFile == Some(q.writeFileNum))
  }

  /** What the metadata refers to is on stable storage up to its write position. */
  predicate TailFsynced(d: Disk) {
    || d.meta.None? || d.meta.value.writePos == 0
    || (d.meta.value.writeFileNum in d.synced && d.meta.value.writePos <= d.synced[d.meta.value.writeFileNum])
  }

  /** The metadata on disk denotes `saved`; in a first lifetime every byte it refers to is durable. */
  ghost predicate DurableDisk(first: bool, p: Params, d: Disk, rf: nat, wf: nat, saved: seq<Message>) {
    match d.meta
    case None => saved == []
    case Some(m) =>
      && m.depth == |saved|
      && Chain(p, d.files, m.readFileNum, m.readPos, m.writeFileNum, m.writePos, saved)
      && m.readFileNum == rf && m.writeFileNum == wf
      && m.writePos <= |BytesOf(d.files, m.writeFileNum)|
      && (first ==> TailFsynced(d))
  }

  ghost predicate Durable(first: bool, p: Params, q: Queue, saved: seq<Message>) {
    DurableDisk(first, p, q.disk, q.readFileNum, q.writeFileNum, saved)
  }

  // ----- each branch of the loop -----

  lemma SyncDurable(first: bool, p: Params, q: Queue, msgs: seq<Message>)
    requires Layout(p, q, msgs) && Fsynced(first, q)
    ensures Fsynced(first, Sync(q)) && Durable(first, p, Sync(q), msgs)
  {
  }

  lemma ReadErrorFsynced(first: bool, p: Params, q: Queue, msgs: seq<Message>)
    requires Layout(p, q, msgs) && Fsynced(first, q) && q.readFileNum < q.writeFileNum
    ensures Fsynced(first, HandleReadError(q))
  {
  }

  /** A read-ahead changes nothing that Durable and Fsynced look at. */
  lemma SelectDurable(first: bool, p: Params, q: Queue, saved: seq<Message>)
    requires Fsynced(first, q) && Durable(first, p, q, saved) && ReadOne(p, q).1.Some?
    ensures var r := ReadOne(p, q).0.(dataRead := ReadOne(p, q).1.value);
            Fsynced(first, r) && Durable(first, p, r, saved) && r.needSync == q.needSync && r.count == q.count
  {
    hide FrameAt, FsyncedDisk, DurableDisk;
  }

  /** One iteration: due syncs persist what the queue holds. */
  lemma IterateDurable(first: bool, p: Params, q: Queue, msgs: seq<Message>, saved: seq<Message>)
    requires Layout(p, q, msgs) && Fsynced(first, q)
    requires q.needSync || Durable(first, p, q, saved)
    ensures Fsynced(first, Iterate(p, q).q)
    ensures var r := Iterate(p, q).q;
            Iterate(p, q).Select? ==>
              && !r.needSync
              && if q.needSync || q.count == p.syncEvery then r.count == 0 && Durable(first, p, r, msgs)
                 else r.count == q.count && Durable(first, p, r, saved)
  {
    hide Chain, FrameAt, FsyncedDisk, DurableDisk;
    var q1 := SyncIfDue(p, q);
    var now := if q.needSync || q.count == p.syncEvery then msgs else saved;
    if q.needSync || q.count == p.syncEvery {
      SyncDurable(first, p, q, msgs);
    }
    assert Fsynced(first, q1) && Durable(first, p, q1, now);
    IterateKeeps(p, q, msgs);
    SyncKeeps(p, q, msgs);
    if Iterate(p, q).Retry? {
      ReadErrorFsynced(first, p, ReadOne(p, q1).0, msgs);
    } else if HasData(q1) && q1.nextReadPos == q1.readPos {
      SelectDurable(first, p, q1, now);
    }
  }

  /** From the head of an iteration to select: either nothing was persisted, or what the queue held was. */
  lemma {:induction false} ToSelectDurable(first: bool, p: Params, q: Queue, msgs: seq<Message>, saved: seq<Message>)
    requires Layout(p, q, msgs) && Fsynced(first, q) && Ordered(q)
    requires q.needSync || Durable(first, p, q, saved)
    ensures var r := ToSelect(p, q);
            && Fsynced(first, r) && !r.needSync
            && ((r.count == 0 && Durable(first, p, r, msgs))
                || (!q.needSync && r.count == q.count != p.syncEvery && Durable(first, p, r, saved)))
    decreases Distance(q)
  {
    IterateKeeps(p, q, msgs);
    IterateDurable(first, p, q, msgs, saved);
    if Iterate(p, q).Retry? {
      RetryMoves(p, q);
    }
    hide Chain, ReadAhead, Iterate, Durable, Fsynced;
    match Iterate(p, q)
    case Select(_) =>
    case Retry(q') => ToSelectDurable(first, p, q', msgs, msgs);
  }

  lemma DeliverDurable(first: bool, p: Params, q: Queue, msgs: seq<Message>, saved: seq<Message>)
    requires AtSelect(p, q, msgs) && HasData(q) && Fsynced(first, q) && Durable(first, p, q, saved)
    ensures Fsynced(first, Advance(q))
    ensures Advance(q).needSync || Durable(first, p, Advance(q), saved)
  {
    hide Chain, FrameAt;
  }

  lemma OpenDurable(first: bool, p: Params, q: Queue, msgs: seq<Message>, saved: seq<Message>)
    requires Layout(p, q, msgs) && Fsynced(first, q) && Durable(first, p, q, saved)
    ensures Fsynced(first, OpenWrite(q)) && Durable(first, p, OpenWrite(q), saved)
  {
    hide Chain, FrameAt;
    if q.disk.meta.Some? {
      var m := q.disk.meta.value;
      ChainFrame(p, q.disk.files, OpenWrite(q).disk.files, m.readFileNum, m.readPos, m.writeFileNum, m.writePos, saved);
    }
  }

  /** A record appended without a roll lies behind everything the metadata refers to. */
  lemma WrittenDurable(first: bool, p: Params, q: Queue, msgs: seq<Message>, saved: seq<Message>, data: Message)
    requires Sane(p) && Accepts(p, data) && Layout(p, q, msgs) && Fsynced(first, q) && Durable(first, p, q, saved)
    requires q.writeFile.Some?
    ensures Fsynced(first, Written(q, data)) && Durable(first, p, Written(q, data), saved)
  {
    hide Chain, FrameAt, Overlay, Frame;
    OverlayAtEnd(q.disk.files[q.writeFileNum], Frame(data));
    if q.disk.meta.Some? {
      var m := q.disk.meta.value;
      ChainFrame(p, q.disk.files, Written(q, data).disk.files, m.readFileNum, m.readPos, m.writeFileNum, m.writePos,
                 saved);
    }
  }

  /** A record that makes the writer roll is persisted together with everything before it. */
  lemma RollDurable(first: bool, p: Params, q: Queue, msgs: seq<Message>, data: Message)
    requires Sane(p) && Accepts(p, data) && Layout(p, q, msgs) && Fsynced(first, q) && q.writeFile.Some?
    requires WriterRolls(p, q.writePos + 4 + |data|)
    ensures Fsynced(first, WriteOne(p, q, data).0) && Durable(first, p, WriteOne(p, q, data).0, msgs + [data])
  {
    hide Chain, FrameAt, Overlay, Frame;
    WriteOneAppends(p, q, data);
    PutKeeps(p, q, msgs, data);
  }

  lemma WriteOneCases(p: Params, q: Queue, data: Message)
    requires Sane(p)
    ensures !Accepts(p, data) ==> WriteOne(p, q, data).0 == OpenWrite(q)
    ensures Accepts(p, data) && !WriterRolls(p, q.writePos + 4 + |data|) ==>
              WriteOne(p, q, data).0 == Written(OpenWrite(q), data)
    ensures WriteOne(p, q, data) == WriteOne(p, OpenWrite(q), data)
    ensures WriteOne(p, q, data).0.count == q.count
  {
    hide Overlay, Frame;
  }

  /** writeOne without a roll leaves the persisted metadata valid; with a roll it persists anew. */
  lemma PutDurable(first: bool, p: Params, q: Queue, msgs: seq<Message>, saved: seq<Message>, data: Message)
    requires Sane(p) && Layout(p, q, msgs) && Fsynced(first, q) && Durable(first, p, q, saved)
    ensures var w := WriteOne(p, q, data).0;
            && Fsynced(first, w)
            && (Durable(first, p, w, saved) || (Accepts(p, data) && Durable(first, p, w, msgs + [data])))
  {
    OpenKeeps(p, q, msgs);
    OpenDurable(first, p, q, msgs, saved);
    WriteOneCases(p, q, data);
    var open := OpenWrite(q);
    assert open.writePos == q.writePos;
    hide Chain, ReadAhead, Durable, Fsynced, Written, OpenWrite, WriteOne;
    if Accepts(p, data) {
      WrittenDurable(first, p, open, msgs, saved, data);
      if WriterRolls(p, open.writePos + 4 + |data|) {
        RollDurable(first, p, open, msgs, data);
      }
    }
  }

  lemma EmptyDurable(first: bool, p: Params, q: Queue, msgs: seq<Message>)
    requires Layout(p, q, msgs) && Fsynced(first, q)
    ensures Fsynced(first, DeleteAllFiles(q)) && Durable(first, p, DeleteAllFiles(q), [])
  {
    hide Chain;
    ChainOrdered(p, q.disk.files, q.readFileNum, q.readPos, q.writeFileNum, q.writePos, msgs);
  }

  /** Close persists the queue as it is, without a sync of its bytes. */
  lemma RestartDurable(p: Params, q: Queue, msgs: seq<Message>)
    requires Layout(p, q, msgs) && Fsynced(false, q)
    ensures Fsynced(false, New(Close(q))) && Durable(false, p, New(Close(q)), msgs) && New(Close(q)).count == 0
  {
    hide Chain, FrameAt;
  }

  /** Reads and writes, the events that ioLoop counts. */
  function Ops(evs: seq<Event>): nat {
    if evs == [] then 0
    else Ops(evs[..|evs| - 1]) + if evs[|evs| - 1].Put? || evs[|evs| - 1].Deliver? then 1 else 0
  }

  lemma HandleDurable(first: bool, p: Params, q: Queue, msgs: seq<Message>, saved: seq<Message>, e: Event)
    requires Sane(p) && AtSelect(p, q, msgs) && Fsynced(first, q) && Durable(first, p, q, saved) && !q.needSync
    requires Selectable(q, e) && SpecSelectable(msgs, e) && (first ==> e != Restart)
    ensures var h := Handle(p, q, e);
            && Fsynced(first, h)
            && (h.needSync || Durable(first, p, h, saved) || Durable(first, p, h, SpecStep(p, msgs, e)))
            && (e == EmptyAll || e == Restart ==> h.count == 0 && Durable(first, p, h, SpecStep(p, msgs, e)))
            && (e != EmptyAll && e != Restart ==> h.count == q.count + Ops([e]))
            && (e == Tick && q.count > 0 ==> h.needSync)
  {
    hide Chain, WriteOne, MoveForward, DeleteAllFiles, New, Close, FsyncedDisk, DurableDisk;
    var counted := q.(count := q.count + 1);
    match e
    case Deliver =>
      DeliverKeeps(p, counted, msgs);
      DeliverDurable(first, p, counted, msgs, saved);
    case Put(data) =>
      PutDurable(first, p, counted, msgs, saved, data);
      WriteOneCases(p, counted, data);
    case EmptyAll => EmptyDurable(first, p, q, msgs);
    case Restart => RestartDurable(p, q, msgs);
    case _ =>
  }

  /** One pass from select to select: the metadata denotes what it denoted, with the operation
      counted, or what the queue holds now. */
  lemma StepDurable(first: bool, p: Params, q: Queue, msgs: seq<Message>, saved: seq<Message>, e: Event)
    requires Sane(p) && AtSelect(p, q, msgs) && Fsynced(first, q) && Durable(first, p, q, saved) && !q.needSync
    requires SpecSelectable(msgs, e) && (first ==> e != Restart) && (p.syncEvery >= 1 ==> q.count < p.syncEvery)
    ensures Step(p, q, e).Some?
    ensures var r := Step(p, q, e).value;
            && Fsynced(first, r) && !r.needSync && (p.syncEvery >= 1 ==> r.count < p.syncEvery)
            && ((e == Tick && q.count > 0) || e == EmptyAll ==> Durable(first, p, r, SpecStep(p, msgs, e)))
            && (Durable(first, p, r, SpecStep(p, msgs, e))
                || (Durable(first, p, r, saved) && r.count == q.count + Ops([e])))
  {
    SelectableRefines(p, q, msgs, e);
    HandleKeeps(p, q, msgs, e);
    HandleDurable(first, p, q, msgs, saved, e);
    StepKeeps(p, q, msgs, e);
    var h := Handle(p, q, e);
    hide Chain, ReadAhead, Durable, Fsynced, Handle;
    if Durable(first, p, h, SpecStep(p, msgs, e)) {
      ToSelectDurable(first, p, h, SpecStep(p, msgs, e), SpecStep(p, msgs, e));
    } else {
      ToSelectDurable(first, p, h, SpecStep(p, msgs, e), saved);
    }
  }

  lemma OpsLast(evs: seq<Event>, j: nat)
    requires j < |evs|
    ensures Ops(evs[j..]) == Ops(evs[..|evs| - 1][j..]) + Ops([evs[|evs| - 1]])
  {
    var n := |evs| - 1;
    assert evs[j..][..n - j] == evs[..n][j..];
  }

  lemma StartDurable(first: bool, p: Params)
    ensures var q := ToSelect(p, New(EMPTY_DISK));
            Fsynced(first, q) && !q.needSync && q.count == 0 && Durable(first, p, q, [])
  {
    ToSelectDurable(first, p, New(EMPTY_DISK), [], []);
  }

  predicate IsOp(e: Event) {
    e.Put? || e.Deliver?
  }

  lemma {:induction false} NoOps(evs: seq<Event>, i: nat)
    requires Ops(evs) == 0 && i < |evs|
    ensures !IsOp(evs[i])
  {
    if i < |evs| - 1 {
      NoOps(evs[..|evs| - 1], i);
    }
  }

  /** What a sync can be late by: fewer than syncEvery reads and writes, none of them before a tick of the
      sync timer, and no Empty. */
  ghost predicate Recent(p: Params, evs: seq<Event>, j: nat) {
    && j <= |evs|
    && (p.syncEvery >= 1 ==> Ops(evs[j..]) < p.syncEvery)
    && (forall i, k | j <= i < k < |evs| && evs[k] == Tick :: !IsOp(evs[i]))
    && (forall i | j <= i < |evs| :: evs[i] != EmptyAll)
  }

  /** Over every run the metadata denotes the queue after some prefix of the run that is recent, and lacks at
      most `count` reads and writes; without a restart what it refers to is durable. */
  lemma {:induction false} RunDurable(first: bool, p: Params, evs: seq<Event>) returns (j: nat)
    requires Sane(p) && Run(p, evs).Some? && (first ==> Restart !in evs)
    ensures Recent(p, evs, j) && SpecRun(p, evs[..j]).Some?
    ensures Ops(evs[j..]) <= Run(p, evs).value.count
    ensures p.syncEvery >= 1 ==> Run(p, evs).value.count < p.syncEvery
    ensures Fsynced(first, Run(p, evs).value) && !Run(p, evs).value.needSync
    ensures Durable(first, p, Run(p, evs).value, SpecRun(p, evs[..j]).value)
  {
    hide Durable, Fsynced, Step, AtSelect, SpecStep, ToSelect;
    if evs == [] {
      StartDurable(first, p);
      j := 0;
    } else {
      var n := |evs| - 1;
      j := RunDurable(first, p, evs[..n]);
      RunRefines(p, evs[..n]);
      RunRefines(p, evs);
      var q, msgs := Run(p, evs[..n]).value, SpecRun(p, evs[..n]).value;
      StepDurable(first, p, q, msgs, SpecRun(p, evs[..n][..j]).value, evs[n]);
      assert evs[..n][..j] == evs[..j];
      if Durable(first, p, Run(p, evs).value, SpecRun(p, evs).value) {
        j := |evs|;
        assert evs[..j] == evs;
      } else {
        OpsLast(evs, j);
        StaysRecent(p, evs, j, q.count);
      }
    }
  }

  /** A prefix that the last event did not persist stays recent. */
  lemma StaysRecent(p: Params, evs: seq<Event>, j: nat, count: nat)
    requires evs != [] && Recent(p, evs[..|evs| - 1], j) && Ops(evs[..|evs| - 1][j..]) <= count
    requires p.syncEvery >= 1 ==> Ops(evs[j..]) < p.syncEvery
    requires evs[|evs| - 1] != EmptyAll && !(evs[|evs| - 1] == Tick && count > 0)
    ensures Recent(p, evs, j)
  {
    var n := |evs| - 1;
    forall i, k | j <= i < k < |evs| && evs[k] == Tick ensures !IsOp(evs[i]) {
      assert evs[i] == evs[..n][i];
      if k == n {
        NoOps(evs[..n][j..], i - j);
      } else {
        assert evs[k] == evs[..n][k];
      }
    }
    assert forall i | j <= i < n :: evs[i] == evs[..n][i];
  }

  /** Nothing happens to the queue while there is no read, write or Empty. */
  lemma {:induction false} QuietRun(p: Params, evs: seq<Event>, j: nat)
    requires j <= |evs| && SpecRun(p, evs).Some? && SpecRun(p, evs[..j]).Some?
    requires forall i | j <= i < |evs| :: !IsOp(evs[i]) && evs[i] != EmptyAll
    ensures SpecRun(p, evs) == SpecRun(p, evs[..j])
    decreases |evs|
  {
    if j == |evs| {
      assert evs[..j] == evs;
    } else {
      var n := |evs| - 1;
      assert evs[..n][..j] == evs[..j];
      QuietRun(p, evs[..n], j);
    }
  }

  // ----- what a crash leaves -----

  /** Bytes that are fsynced up to the persisted write position are read back whatever else was lost. */
  lemma ImageRecovers(p: Params, d: Disk, rf: nat, wf: nat, saved: seq<Message>, found: Disk)
    requires FsyncedDisk(d, wf) && DurableDisk(false, p, d, rf, wf, saved) && TailFsynced(d) && CrashImage(d, found)
    ensures Recovers(p, New(found), saved)
  {
    if d.meta.Some? {
      var m := d.meta.value;
      forall g: nat | m.readFileNum <= g < m.writeFileNum && g in d.files
        ensures g in found.files && found.files[g] == d.files[g]
      {
        assert d.synced[g] == |d.files[g]|;
        assert found.files[g] == found.files[g][..d.synced[g]];
      }
      if m.writePos > 0 {
        assert m.writeFileNum in d.synced && m.writeFileNum in d.files;
        var a, b := d.files[m.writeFileNum], found.files[m.writeFileNum];
        var n := d.synced[m.writeFileNum];
        assert a[..m.writePos] == a[..n][..m.writePos] == b[..n][..m.writePos] == b[..m.writePos];
      }
      ChainFrame(p, d.files, found.files, m.readFileNum, m.readPos, m.writeFileNum, m.writePos, saved);
    }
  }

  /** Unless it is empty at the write cursor, a chain needs the write file up to the write position. */
  lemma {:induction false} ChainNeedsBytes(p: Params, files: map<nat, seq<Byte>>, f: nat, pos: nat, wf: nat, wp: nat,
                                           msgs: seq<Message>)
    requires Chain(p, files, f, pos, wf, wp, msgs) && wp > 0 && !(f == wf && pos == wp)
    ensures wp <= |BytesOf(files, wf)|
    decreases wf - f, |msgs|
  {
    if AtFileEnd(files, f, pos, wf) {
      ChainNeedsBytes(p, files, f + 1, 0, wf, wp, msgs);
    } else {
      var next := NextCursor(p, f, pos, |msgs[0]|);
      if next != (wf, wp) {
        ChainNeedsBytes(p, files, next.0, next.1, wf, wp, msgs[1..]);
      }
    }
  }

  /** Nothing is left to read from the persisted cursors. */
  predicate NothingLeft(d: Disk) {
    && d.meta.Some?
    && var m := d.meta.value;
       (m.readFileNum, m.readPos) == (m.writeFileNum, m.writePos)
  }

  /** Whatever a crash leaves of the directory, New recovers `saved`. */
  ghost predicate AlwaysRecovers(p: Params, d: Disk, saved: seq<Message>) {
    forall found | CrashImage(d, found) :: Recovers(p, New(found), saved)
  }

  /** A directory whose metadata denotes `saved` always gives it back exactly when the tail it refers to
      is fsynced, or nothing is left to read. */
  lemma ImageRecoversIff(p: Params, d: Disk, rf: nat, wf: nat, saved: seq<Message>)
    requires FsyncedDisk(d, wf) && DurableDisk(false, p, d, rf, wf, saved)
    ensures AlwaysRecovers(p, d, saved) <==> TailFsynced(d) || NothingLeft(d)
  {
    if TailFsynced(d) {
      forall found | CrashImage(d, found) ensures Recovers(p, New(found), saved) {
        ImageRecovers(p, d, rf, wf, saved, found);
      }
    } else if !NothingLeft(d) {
      var m := d.meta.value;
      var lost := if wf in d.synced then d.files[wf := d.files[wf][..d.synced[wf]]] else d.files - {wf};
      var found := d.(files := lost);
      assert CrashImage(d, found);
      if Recovers(p, New(found), saved) {
        ChainNeedsBytes(p, lost, m.readFileNum, m.readPos, wf, m.writePos, saved);
      }
    }
  }

  /** Crash recovery over every run, restarts included: there is a recent prefix of the run whose queue every
      crash in select recovers exactly, with its depth, if and only if the tail the metadata refers to is
      fsynced or nothing was left to read. */
  lemma CrashRecoversIff(p: Params, evs: seq<Event>) returns (j: nat)
    requires Sane(p) && Run(p, evs).Some?
    ensures Recent(p, evs, j) && SpecRun(p, evs[..j]).Some?
    ensures var d := Run(p, evs).value.disk;
            AlwaysRecovers(p, d, SpecRun(p, evs[..j]).value) <==> TailFsynced(d) || NothingLeft(d)
  {
    j := RunDurable(false, p, evs);
    var q := Run(p, evs).value;
    hide Run, SpecRun, AlwaysRecovers;
    ImageRecoversIff(p, q.disk, q.readFileNum, q.writeFileNum, SpecRun(p, evs[..j]).value);
  }

  /** Without a restart the tail is always fsynced, so whatever directory is found, New recovers exactly
      the queue as it was after a recent prefix of the run. */
  lemma CrashRecovers(p: Params, evs: seq<Event>, found: Disk) returns (j: nat)
    requires Sane(p) && Run(p, evs).Some? && Restart !in evs
    requires CrashImage(Run(p, evs).value.disk, found)
    ensures Recent(p, evs, j) && SpecRun(p, evs[..j]).Some?
    ensures TailFsynced(Run(p, evs).value.disk)
    ensures Recovers(p, New(found), SpecRun(p, evs[..j]).value)
  {
    j := RunDurable(true, p, evs);
    var q := Run(p, evs).value;
    ImageRecovers(p, q.disk, q.readFileNum, q.writeFileNum, SpecRun(p, evs[..j]).value, found);
  }

  // ----- the sync timer -----

  /** Once a tick of the sync timer has been handled the queue itself is persisted, whatever syncEvery is:
      without a restart every crash recovers exactly it. */
  lemma TickPersists(p: Params, evs: seq<Event>)
    requires Sane(p) && evs != [] && evs[|evs| - 1] == Tick && Run(p, evs).Some? && SpecRun(p, evs).Some?
    ensures var d := Run(p, evs).value.disk;
            AlwaysRecovers(p, d, SpecRun(p, evs).value) <==> TailFsynced(d) || NothingLeft(d)
    ensures Restart !in evs ==> AlwaysRecovers(p, Run(p, evs).value.disk, SpecRun(p, evs).value)
  {
    hide Run, SpecRun, AlwaysRecovers, Durable, Fsynced;
    var j := CrashRecoversIff(p, evs);
    QuietRun(p, evs, j);
    if Restart !in evs {
      var k := RunDurable(true, p, evs);
      FirstTailFsynced(p, Run(p, evs).value, SpecRun(p, evs[..k]).value);
    }
  }

  lemma FirstTailFsynced(p: Params, q: Queue, saved: seq<Message>)
    requires Durable(true, p, q, saved)
    ensures TailFsynced(q.disk)
  {
  }

  /** Without a due sync and without a read error, reaching select writes nothing to disk. */
  lemma SelectLeavesDisk(p: Params, q: Queue)
    requires Ordered(q) && !q.needSync && q.count != p.syncEvery && Iterate(p, q).Select?
    ensures var r := ToSelect(p, q);
            && r.disk == q.disk && r.readFileNum == q.readFileNum && r.readPos == q.readPos
            && r.writeFileNum == q.writeFileNum && r.writePos == q.writePos
  {
    hide FrameAt;
  }

  lemma IdlePass(p: Params, q: Queue, msgs: seq<Message>, e: Event)
    requires Sane(p) && AtSelect(p, q, msgs) && !q.needSync && q.count != p.syncEvery
    requires e == ReadTick || (e == Tick && q.count == 0)
    ensures Step(p, q, e).Some? && Step(p, q, e).value.disk == q.disk
  {
    hide Chain, FrameAt, ToSelect;
    StepKeeps(p, q, msgs, e);
    IterateKeeps(p, q, msgs);
    SelectLeavesDisk(p, q);
  }

  lemma {:induction false} TickClearsCount(p: Params, evs: seq<Event>)
    requires Sane(p) && p.syncEvery != 0 && evs != [] && evs[|evs| - 1] == Tick && Run(p, evs).Some?
    ensures Run(p, evs).value.count == 0
  {
    hide Chain, Durable, Fsynced, ToSelect;
    var n := |evs| - 1;
    RunRefines(p, evs[..n]);
    var j := RunDurable(false, p, evs[..n]);
    var q, msgs := Run(p, evs[..n]).value, SpecRun(p, evs[..n]).value;
    var saved := SpecRun(p, evs[..n][..j]).value;
    HandleKeeps(p, q, msgs, Tick);
    HandleDurable(false, p, q, msgs, saved, Tick);
    StepKeeps(p, q, msgs, Tick);
    ToSelectDurable(false, p, Handle(p, q, Tick), msgs, saved);
  }

  /** A tick with nothing to persist, and any tick of the other timer, writes nothing. */
  lemma IdleTick(p: Params, evs: seq<Event>, e: Event)
    requires Sane(p) && p.syncEvery != 0 && Run(p, evs).Some?
    requires e == ReadTick || (e == Tick && evs != [] && evs[|evs| - 1] == Tick)
    ensures Run(p, evs + [e]).Some? && Run(p, evs + [e]).value.disk == Run(p, evs).value.disk
  {
    hide Run, SpecRun, AtSelect, Durable, Fsynced, Recent, Step;
    RunRefines(p, evs);
    var j := RunDurable(false, p, evs);
    if e == Tick {
      TickClearsCount(p, evs);
    }
    IdlePass(p, Run(p, evs).value, SpecRun(p, evs).value, e);
    RunOneMore(p, evs, e);
  }

  lemma RunOneMore(p: Params, evs: seq<Event>, e: Event)
    requires Sane(p) && Run(p, evs).Some?
    ensures Run(p, evs + [e]) == Step(p, Run(p, evs).value, e)
  {
    assert (evs + [e])[..|evs|] == evs;
  }

  // ----- a crash after Close -----

  /** Close persists metadata but fsyncs no data: a power failure after Close, in any lifetime, is harmless
      exactly when the tail of the write file had been fsynced already, or there was nothing left to read. */
  lemma CloseIsDurableIff(p: Params, evs: seq<Event>)
    requires Sane(p) && p.syncEvery >= 1 && Run(p, evs).Some? && SpecRun(p, evs).Some?
    ensures var q := Run(p, evs).value;
            AlwaysRecovers(p, Close(q), SpecRun(p, evs).value) <==> TailFsynced(Close(q)) || NothingLeft(Close(q))
    ensures var q := Run(p, evs).value;
            Close(q).synced == q.disk.synced && Close(q).files == q.disk.files
  {
    RunRefines(p, evs);
    var _ := RunDurable(false, p, evs);
    CloseFrom(p, Run(p, evs).value, SpecRun(p, evs).value);
  }

  lemma CloseFrom(p: Params, q: Queue, msgs: seq<Message>)
    requires AtSelect(p, q, msgs) && Fsynced(false, q)
    ensures AlwaysRecovers(p, Close(q), msgs) <==> TailFsynced(Close(q)) || NothingLeft(Close(q))
    ensures Close(q).synced == q.disk.synced && Close(q).files == q.disk.files
  {
    hide AlwaysRecovers;
    ImageRecoversIff(p, Close(q), q.readFileNum, q.writeFileNum, msgs);
  }

  lemma FirstPut(p: Params, m: Message)
    requires Sane(p) && Accepts(p, m) && !WriterRolls(p, 4 + |m|) && p.syncEvery >= 2
    ensures Run(p, [Put(m)]).Some?
    ensures var q := Run(p, [Put(m)]).value;
            && q.readFileNum == 0 && q.readPos == 0 && q.writeFileNum == 0 && q.writePos == 4 + |m|
            && q.disk.synced == map[]
  {
    hide FrameAt, Frame, Overlay, Chain;
    var start := New(EMPTY_DISK);
    var h := Handle(p, start, Put(m));
    assert Layout(p, start, []) by {
      StartLaidOut(p);
    }
    PutKeeps(p, start.(count := 1), [], m);
    IterateKeeps(p, h, [] + [m]);
    SelectLeavesDisk(p, start);
    assert ToSelect(p, start) == start;
    SelectLeavesDisk(p, h);
    assert [Put(m)][..0] == [];
    assert Run(p, []) == Some(start);
  }

  lemma StartLaidOut(p: Params)
    ensures Layout(p, New(EMPTY_DISK), [])
  {
  }

  /** Any first message, closed before a sync is due, can be lost: the tail is not fsynced. */
  lemma CloseCanLoseAMessage(p: Params, m: Message)
    requires Sane(p) && Accepts(p, m) && !WriterRolls(p, 4 + |m|) && p.syncEvery >= 2
    ensures Run(p, [Put(m)]).Some?
    ensures !TailFsynced(Close(Run(p, [Put(m)]).value))
    ensures !AlwaysRecovers(p, Close(Run(p, [Put(m)]).value), [m])
  {
    hide Run, AlwaysRecovers;
    FirstPut(p, m);
    RunRefines(p, [Put(m)]);
    assert [Put(m)][..0] == [] && [] + [m] == [m];
    CloseIsDurableIff(p, [Put(m)]);
  }

  /** The same message, closed and reopened, is lost by a crash while the new loop waits in select. */
  lemma ReopenedCanLoseAMessage(p: Params, m: Message)
    requires Sane(p) && Accepts(p, m) && !WriterRolls(p, 4 + |m|) && p.syncEvery >= 2
    ensures Run(p, [Put(m), Restart]).Some?
    ensures !AlwaysRecovers(p, Run(p, [Put(m), Restart]).value.disk, [m])
  {
    hide AlwaysRecovers, Chain, FrameAt;
    CloseCanLoseAMessage(p, m);
    var q := Run(p, [Put(m)]).value;
    RunRefines(p, [Put(m)]);
    FirstPut(p, m);
    assert [Put(m)][..0] == [] && [] + [m] == [m] && [Put(m), Restart][..1] == [Put(m)];
    var h := New(Close(q));
    RestartKeeps(p, q, [m]);
    IterateKeeps(p, h, [m]);
    SelectLeavesDisk(p, h);
    assert Run(p, [Put(m), Restart]) == Step(p, q, Restart) == Some(ToSelect(p, h));
  }
}
