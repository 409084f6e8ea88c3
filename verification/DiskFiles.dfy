/** Which data files there are and how long they get. */
module DiskFiles {
  import opened Options
  import opened DiskFrames
  import opened DiskModel
  import opened DiskFifo

  /** The length of a file the writer has left: over the limit, or at it where the writer rolls when full, and
      by less than one record. */
  predicate LeftSize(p: Params, n: int) {
    && (n > p.maxBytesPerFile || (p.rollWhenFull && n == p.maxBytesPerFile))
    && (n <= 4 + p.maxMsgSize || n <= p.maxBytesPerFile + 4 + p.maxMsgSize)
  }

  /** The length of the file the writer is on. */
  predicate OpenSize(p: Params, n: int) {
    n == 0 || n < p.maxBytesPerFile || (!p.rollWhenFull && n == p.maxBytesPerFile)
  }

  /** The directory holds exactly the files from the read file to the write file, the latter once it has been
      opened; those the writer has left are full, the other one is not. */
  ghost predicate Directory(p: Params, q: Queue) {
    && (forall f | f in q.disk.files :: q.readFileNum <= f <= q.writeFileNum)
    && (forall f: nat | q.readFileNum <= f < q.writeFileNum :: f in q.disk.files && LeftSize(p, |q.disk.files[f]|))
    && OpenSize(p, q.writePos)
  }

  /** An accepted record goes to the write file, which is left exactly if that fills it. */
  lemma AppendDirectory(p: Params, q: Queue, data: Message, w: Queue)
    requires Accepts(p, data) && |data| < 0x8000_0000 && Appended(p, q, data, w)
    requires Directory(p, q) && q.readFileNum <= q.writeFileNum
    requires |BytesOf(q.disk.files, q.writeFileNum)| == q.writePos
    ensures Directory(p, w)
  {
    hide Frame;
    forall f: nat | w.readFileNum <= f < w.writeFileNum
      ensures f in w.disk.files && LeftSize(p, |w.disk.files[f]|)
    {
      if f == q.writeFileNum {
        assert w.disk.files[f] == BytesOf(q.disk.files, f) + Frame(data);
      } else {
        assert f in q.disk.files && w.disk.files[f] == q.disk.files[f];
      }
    }
  }

  lemma OpenDirectory(p: Params, q: Queue)
    requires Directory(p, q) && q.readFileNum <= q.writeFileNum
    ensures Directory(p, OpenWrite(q))
  {
    hide LeftSize, OpenSize;
  }

  lemma PutDirectory(p: Params, q: Queue, msgs: seq<Message>, data: Message)
    requires Sane(p) && Layout(p, q, msgs) && Directory(p, q) && q.readFileNum <= q.writeFileNum
    ensures Directory(p, WriteOne(p, q, data).0)
  {
    hide Chain, ReadAhead, Directory, Frame, Overlay;
    OpenDirectory(p, q);
    if Accepts(p, data) {
      WriteOneAppends(p, q, data);
      AppendDirectory(p, OpenWrite(q), data, WriteOne(p, q, data).0);
    }
  }

  lemma DeliverDirectory(p: Params, q: Queue, msgs: seq<Message>)
    requires Sane(p) && AtSelect(p, q, msgs) && HasData(q) && Directory(p, q)
    ensures Directory(p, MoveForward(q))
  {
    hide Chain, FrameAt, LeftSize, OpenSize;
    DeliverKeeps(p, q, msgs);
  }

  lemma EmptyDirectory(p: Params, q: Queue)
    requires Directory(p, q)
    ensures Directory(p, DeleteAllFiles(q)) && DeleteAllFiles(q).disk.files == map[]
    ensures DeleteAllFiles(q).writeFileNum == q.writeFileNum + 1
  {
    hide LeftSize;
    assert forall f | f in DeleteAllFiles(q).disk.files :: false;
  }

  lemma HandleDirectory(p: Params, q: Queue, msgs: seq<Message>, e: Event)
    requires Sane(p) && AtSelect(p, q, msgs) && Selectable(q, e) && Directory(p, q) && q.readFileNum <= q.writeFileNum
    ensures Directory(p, Handle(p, q, e))
    ensures e == EmptyAll ==>
              Handle(p, q, e).disk.files == map[] && Handle(p, q, e).writeFileNum == q.writeFileNum + 1
  {
    hide Chain, WriteOne, MoveForward, DeleteAllFiles, LeftSize, OpenSize;
    match e
    case Deliver => DeliverDirectory(p, q.(count := q.count + 1), msgs);
    case Put(data) => PutDirectory(p, q.(count := q.count + 1), msgs, data);
    case EmptyAll => EmptyDirectory(p, q);
    case _ =>
  }

  lemma ReadErrorDirectory(p: Params, q: Queue)
    requires Directory(p, q) && q.readFileNum < q.writeFileNum
    ensures Directory(p, HandleReadError(q))
  {
    hide LeftSize, OpenSize;
  }

  /** Only a read error changes the directory on the way to select. */
  lemma IterateDirectory(p: Params, q: Queue, msgs: seq<Message>)
    requires Layout(p, q, msgs) && Directory(p, q)
    ensures Directory(p, Iterate(p, q).q)
    ensures Iterate(p, q).Select? ==>
              Iterate(p, q).q.disk.files == q.disk.files && Iterate(p, q).q.writeFileNum == q.writeFileNum
  {
    hide Layout, AtSelect, FrameAt, LeftSize, OpenSize, HandleReadError;
    IterateKeeps(p, q, msgs);
    var q1 := SyncIfDue(p, q);
    assert Directory(p, q1);
    if Iterate(p, q).Retry? {
      ReadErrorDirectory(p, ReadOne(p, q1).0);
    }
  }

  lemma {:induction false} ToSelectDirectory(p: Params, q: Queue, msgs: seq<Message>)
    requires Layout(p, q, msgs) && Directory(p, q) && Ordered(q)
    ensures Directory(p, ToSelect(p, q))
    decreases Distance(q)
  {
    IterateKeeps(p, q, msgs);
    IterateDirectory(p, q, msgs);
    if Iterate(p, q).Retry? {
      RetryMoves(p, q);
      hide Iterate, Chain, Directory;
      ToSelectDirectory(p, Iterate(p, q).q, msgs);
    }
  }

  lemma StepDirectory(p: Params, q: Queue, msgs: seq<Message>, e: Event)
    requires Sane(p) && AtSelect(p, q, msgs) && Directory(p, q) && SpecSelectable(msgs, e)
    ensures Step(p, q, e).Some? && Directory(p, Step(p, q, e).value)
  {
    ChainOrdered(p, q.disk.files, q.readFileNum, q.readPos, q.writeFileNum, q.writePos, msgs);
    SelectableRefines(p, q, msgs, e);
    HandleKeeps(p, q, msgs, e);
    HandleDirectory(p, q, msgs, e);
    StepKeeps(p, q, msgs, e);
    hide Handle, Chain, Directory;
    ToSelectDirectory(p, Handle(p, q, e), SpecStep(p, msgs, e));
  }

  /** Over every run: every file the reader has left is gone, no file is skipped, and no file grows beyond one
      record over the limit. */
  lemma {:induction false} RunDirectory(p: Params, evs: seq<Event>)
    requires Sane(p) && Run(p, evs).Some?
    ensures Directory(p, Run(p, evs).value)
  {
    hide Directory, AtSelect, Step;
    if evs == [] {
      StartDirectory(p);
    } else {
      var n := |evs| - 1;
      RunDirectory(p, evs[..n]);
      RunRefines(p, evs[..n]);
      RunRefines(p, evs);
      StepDirectory(p, Run(p, evs[..n]).value, SpecRun(p, evs[..n]).value, evs[n]);
    }
  }

  /** Empty leaves no data file and starts the next one. */
  lemma EmptyLeavesNothing(p: Params, evs: seq<Event>)
    requires Sane(p) && Run(p, evs).Some?
    ensures Run(p, evs + [EmptyAll]).Some?
    ensures var q, r := Run(p, evs).value, Run(p, evs + [EmptyAll]).value;
            && r.disk.files == map[] && r.writeFileNum == q.writeFileNum + 1
            && r.readFileNum == r.writeFileNum && r.readPos == r.writePos == 0
  {
    RunDirectory(p, evs);
    RunRefines(p, evs);
    var q := Run(p, evs).value;
    StepKeeps(p, q, SpecRun(p, evs).value, EmptyAll);
    EmptyDirectory(p, q);
    assert (evs + [EmptyAll])[..|evs|] == evs;
  }

  lemma StartDirectory(p: Params)
    ensures Directory(p, ToSelect(p, New(EMPTY_DISK)))
  {
    ToSelectDirectory(p, New(EMPTY_DISK), []);
  }
}
