/** The disk queue refines a plain sequence of messages, for both packages and across restarts. */
module DiskFifo {
  import opened Options
  import opened DiskFrames
  import opened DiskModel

  // ----- the specification -----

  predicate SpecSelectable(msgs: seq<Message>, e: Event) {
    match e
    case Deliver => msgs != []
    case Put(data) => |data| < 0x8000_0000
    case _ => true
  }

  function SpecStep(p: Params, msgs: seq<Message>, e: Event): seq<Message>
    requires SpecSelectable(msgs, e)
  {
    match e
    case Deliver => msgs[1..]
    case EmptyAll => []
    case Put(data) => if Accepts(p, data) then msgs + [data] else msgs
    case _ => msgs
  }

  function SpecRespond(p: Params, msgs: seq<Message>, e: Event): Answer
    requires SpecSelectable(msgs, e)
  {
    match e
    case Deliver => Delivered(msgs[0])
    case Put(data) => PutResult(Accepts(p, data))
    case _ => Silent
  }

  function SpecRun(p: Params, evs: seq<Event>): Option<seq<Message>> {
    if evs == [] then Some([])
    else
      var before := SpecRun(p, evs[..|evs| - 1]);
      var e := evs[|evs| - 1];
      if before.None? || !SpecSelectable(before.value, e) then None
      else Some(SpecStep(p, before.value, e))
  }

  // ----- the refinement relation -----

  /** The cursor stands exactly at the end of a file the writer has left. */
  predicate AtFileEnd(files: map<nat, seq<Byte>>, f: nat, pos: nat, wf: nat) {
    f < wf && f in files && pos == |files[f]|
  }

  /** Reading from (f, pos) up to the write cursor (wf, wp) yields exactly `msgs`. */
  ghost predicate Chain(p: Params, files: map<nat, seq<Byte>>, f: nat, pos: nat, wf: nat, wp: nat, msgs: seq<Message>)
    decreases wf - f, |msgs|
  {
    if f == wf && pos == wp then msgs == []
    else if AtFileEnd(files, f, pos, wf) then Chain(p, files, f + 1, 0, wf, wp, msgs)
    else
      && f <= wf
      && f in files
      && msgs != []
      && RecordAt(p, files, f, pos) == Some(msgs[0])
      && var next := NextCursor(p, f, pos, |msgs[0]|);
      && (f == wf ==> next.0 == wf && next.1 <= wp)
      && Chain(p, files, next.0, next.1, wf, wp, msgs[1..])
  }

  /** The first message has been read ahead and the next cursor is the one behind it. */
  ghost predicate ReadAhead(p: Params, q: Queue, msgs: seq<Message>) {
    && msgs != []
    && q.dataRead == msgs[0]
    && !AtFileEnd(q.disk.files, q.readFileNum, q.readPos, q.writeFileNum)
    && (q.nextReadFileNum, q.nextReadPos) == NextCursor(p, q.readFileNum, q.readPos, |msgs[0]|)
  }

  /** Holds whenever ioLoop is at the head of an iteration. */
  ghost predicate Layout(p: Params, q: Queue, msgs: seq<Message>) {
    && Chain(p, q.disk.files, q.readFileNum, q.readPos, q.writeFileNum, q.writePos, msgs)
    && q.depth == |msgs|
    && |BytesOf(q.disk.files, q.writeFileNum)| == q.writePos
    && (forall f | f in q.disk.files :: f <= q.writeFileNum)
    && (q.writeFile.Some? ==> q.writeFile.value == q.writeFileNum && q.writeFileNum in q.disk.files)
    && (q.readFile.Some? ==> q.readFile.value == q.nextReadPos && q.nextReadFileNum == q.readFileNum)
    && (q.nextReadPos != q.readPos ==> ReadAhead(p, q, msgs))
  }

  /** Holds whenever ioLoop blocks in select. */
  ghost predicate AtSelect(p: Params, q: Queue, msgs: seq<Message>) {
    Layout(p, q, msgs) && (HasData(q) ==> ReadAhead(p, q, msgs))
  }

  // ----- the chain -----

  lemma {:induction false} ChainOrdered(p: Params, files: map<nat, seq<Byte>>, f: nat, pos: nat, wf: nat, wp: nat,
                                        msgs: seq<Message>)
    requires Chain(p, files, f, pos, wf, wp, msgs)
    ensures f < wf || (f == wf && pos <= wp)
    ensures f == wf && pos == wp ==> msgs == []
    ensures f == wf && pos < wp ==> msgs != []
  {
  }

  /** The write cursor and the files determine the queue: no other sequence fits. */
  lemma {:induction false} ChainUnique(p: Params, files: map<nat, seq<Byte>>, f: nat, pos: nat, wf: nat, wp: nat,
                                       a: seq<Message>, b: seq<Message>)
    requires Chain(p, files, f, pos, wf, wp, a) && Chain(p, files, f, pos, wf, wp, b)
    ensures a == b
    decreases wf - f, |a|
  {
    if f == wf && pos == wp {
    } else if AtFileEnd(files, f, pos, wf) {
      ChainUnique(p, files, f + 1, 0, wf, wp, a, b);
    } else {
      var next := NextCursor(p, f, pos, |a[0]|);
      ChainUnique(p, files, next.0, next.1, wf, wp, a[1..], b[1..]);
      assert a == [a[0]] + a[1..] && b == [b[0]] + b[1..];
    }
  }

  /** Two directories agree from file f up to the write cursor. */
  ghost predicate Agree(a: map<nat, seq<Byte>>, b: map<nat, seq<Byte>>, f: nat, wf: nat, wp: nat) {
    && (forall g: nat | f <= g < wf && g in a :: g in b && a[g] == b[g])
    && (wp > 0 && wf in a ==> wf in b)
    && wp <= |BytesOf(a, wf)| && wp <= |BytesOf(b, wf)|
    && BytesOf(a, wf)[..wp] == BytesOf(b, wf)[..wp]
  }

  lemma {:induction false} ChainFrame(p: Params, a: map<nat, seq<Byte>>, b: map<nat, seq<Byte>>, f: nat, pos: nat,
                                      wf: nat, wp: nat, msgs: seq<Message>)
    requires Chain(p, a, f, pos, wf, wp, msgs) && Agree(a, b, f, wf, wp)
    ensures Chain(p, b, f, pos, wf, wp, msgs)
    decreases wf - f, |msgs|
  {
    if f == wf && pos == wp {
    } else if AtFileEnd(a, f, pos, wf) {
      ChainFrame(p, a, b, f + 1, 0, wf, wp, msgs);
    } else {
      var next := NextCursor(p, f, pos, |msgs[0]|);
      if f == wf {
        FrameAtPrefix(p.minMsgSize, p.maxMsgSize, a[f], b[f], pos, wp);
      }
      ChainFrame(p, a, b, next.0, next.1, wf, wp, msgs[1..]);
    }
  }

  /** The write cursor after appending m at (wf, wp). */
  function WriteCursor(p: Params, wf: nat, wp: nat, m: Message): (nat, nat) {
    var end := wp + 4 + |m|;
    if WriterRolls(p, end) then (wf + 1, 0) else (wf, end)
  }

  /** Appending a record at the write cursor appends its message, whether or not the writer rolls,
      and whether or not the reader will roll at the same place. */
  lemma {:induction false} ChainAppend(p: Params, a: map<nat, seq<Byte>>, f: nat, pos: nat, wf: nat, wp: nat,
                                       msgs: seq<Message>, m: Message)
    requires Sane(p) && Accepts(p, m)
    requires Chain(p, a, f, pos, wf, wp, msgs) && |BytesOf(a, wf)| == wp
    ensures var b := a[wf := BytesOf(a, wf) + Frame(m)];
            var w := WriteCursor(p, wf, wp, m);
            Chain(p, b, f, pos, w.0, w.1, msgs + [m])
    decreases wf - f, |msgs|
  {
    hide FrameAt, Frame;
    var b := a[wf := BytesOf(a, wf) + Frame(m)];
    var w := WriteCursor(p, wf, wp, m);
    if f == wf && pos == wp {
      FrameRoundTrip(p.minMsgSize, p.maxMsgSize, BytesOf(a, wf), m);
      assert RecordAt(p, b, wf, wp) == Some(m);
      assert msgs + [m] == [m] && [m][1..] == [];
      var next := NextCursor(p, f, pos, |m|);
      if next.0 == wf && w.0 == wf + 1 {
        assert AtFileEnd(b, wf, next.1, w.0);
        assert Chain(p, b, wf + 1, 0, w.0, w.1, []);
      }
      assert Chain(p, b, next.0, next.1, w.0, w.1, []);
    } else if AtFileEnd(a, f, pos, wf) {
      ChainAppend(p, a, f + 1, 0, wf, wp, msgs, m);
    } else {
      var next := NextCursor(p, f, pos, |msgs[0]|);
      ChainAppend(p, a, next.0, next.1, wf, wp, msgs[1..], m);
      assert (msgs + [m])[1..] == msgs[1..] + [m];
      if f == wf {
        FrameAtPrefix(p.minMsgSize, p.maxMsgSize, a[wf], b[wf], pos, wp);
      }
      assert RecordAt(p, b, f, pos) == Some(msgs[0]);
    }
  }

  // ----- every branch of ioLoop keeps the relation -----

  lemma SyncKeeps(p: Params, q: Queue, msgs: seq<Message>)
    requires Layout(p, q, msgs)
    ensures Layout(p, SyncIfDue(p, q), msgs)
  {
  }

  lemma ReadOneKeeps(p: Params, q: Queue, msgs: seq<Message>)
    requires Layout(p, q, msgs) && HasData(q) && q.nextReadPos == q.readPos
    requires !AtFileEnd(q.disk.files, q.readFileNum, q.readPos, q.writeFileNum)
    ensures ReadOne(p, q).1.Some?
    ensures AtSelect(p, ReadOne(p, q).0.(dataRead := ReadOne(p, q).1.value), msgs)
    ensures ReadOne(p, q).0.readFile.Some? <==> ReadOne(p, q).0.nextReadFileNum == q.readFileNum
  {
  }

  /** An exactly-full file the writer has left: the read error skips it and loses nothing. */
  lemma ReadErrorKeeps(p: Params, q: Queue, msgs: seq<Message>)
    requires Layout(p, q, msgs) && q.nextReadPos == q.readPos
    requires AtFileEnd(q.disk.files, q.readFileNum, q.readPos, q.writeFileNum)
    ensures ReadOne(p, q).1.None?
    ensures Layout(p, HandleReadError(ReadOne(p, q).0), msgs)
  {
    var q3 := HandleReadError(ReadOne(p, q).0);
    ChainFrame(p, q.disk.files, q3.disk.files, q.readFileNum + 1, 0, q.writeFileNum, q.writePos, msgs);
  }

  /** One iteration from a laid-out state either reaches select, or meets an exactly-full file that
      the writer has left and steps over it; no other read error occurs. */
  lemma IterateKeeps(p: Params, q: Queue, msgs: seq<Message>)
    requires Layout(p, q, msgs)
    ensures match Iterate(p, q)
            case Select(q') =>
              && !AtFileEnd(q.disk.files, q.readFileNum, q.readPos, q.writeFileNum)
              && AtSelect(p, q', msgs)
            case Retry(q') =>
              && AtFileEnd(q.disk.files, q.readFileNum, q.readPos, q.writeFileNum)
              && Layout(p, q', msgs)
  {
    var q1 := SyncIfDue(p, q);
    SyncKeeps(p, q, msgs);
    if HasData(q1) && q1.nextReadPos == q1.readPos {
      if AtFileEnd(q1.disk.files, q1.readFileNum, q1.readPos, q1.writeFileNum) {
        ReadErrorKeeps(p, q1, msgs);
      } else {
        ReadOneKeeps(p, q1, msgs);
      }
    }
  }

  lemma {:induction false} ToSelectKeeps(p: Params, q: Queue, msgs: seq<Message>)
    requires Layout(p, q, msgs) && Ordered(q)
    ensures AtSelect(p, ToSelect(p, q), msgs)
    decreases Distance(q)
  {
    IterateKeeps(p, q, msgs);
    match Iterate(p, q)
    case Select(_) =>
    case Retry(q') => ToSelectKeeps(p, q', msgs);
  }

  /** A delivery drops the head; checkTailCorruption changes nothing. */
  lemma DeliverKeeps(p: Params, q: Queue, msgs: seq<Message>)
    requires AtSelect(p, q, msgs) && HasData(q)
    ensures msgs != [] && MoveForward(q) == Advance(q)
    ensures Layout(p, MoveForward(q), msgs[1..])
  {
    hide FrameAt;
    var a := Advance(q);
    ChainFrame(p, q.disk.files, a.disk.files, a.readFileNum, a.readPos, q.writeFileNum, q.writePos, msgs[1..]);
    ChainOrdered(p, a.disk.files, a.readFileNum, a.readPos, a.writeFileNum, a.writePos, msgs[1..]);
  }

  lemma OpenKeeps(p: Params, q: Queue, msgs: seq<Message>)
    requires Layout(p, q, msgs)
    ensures Layout(p, OpenWrite(q), msgs) && OpenWrite(q).writeFile.Some?
  {
    var open := OpenWrite(q);
    ChainFrame(p, q.disk.files, open.disk.files, q.readFileNum, q.readPos, q.writeFileNum, q.writePos, msgs);
  }

  /** The state writeOne leaves when it accepts: the record appended and the cursor moved, perhaps rolled. */
  ghost predicate Appended(p: Params, q: Queue, data: Message, w: Queue)
    requires |data| < 0x8000_0000
  {
    && w.disk.files == q.disk.files[q.writeFileNum := BytesOf(q.disk.files, q.writeFileNum) + Frame(data)]
    && (w.writeFileNum, w.writePos) == WriteCursor(p, q.writeFileNum, q.writePos, data)
    && w.depth == q.depth + 1 && w.dataRead == q.dataRead && w.readFile == q.readFile
    && w.writeFile == (if w.writeFileNum == q.writeFileNum then q.writeFile else None)
    && w.readFileNum == q.readFileNum && w.readPos == q.readPos
    && w.nextReadFileNum == q.nextReadFileNum && w.nextReadPos == q.nextReadPos
  }

  lemma WriteOneAppends(p: Params, q: Queue, data: Message)
    requires Sane(p) && Accepts(p, data) && q.writePos == |BytesOf(q.disk.files, q.writeFileNum)|
    requires q.writeFile.Some? ==> q.writeFile.value == q.writeFileNum
    ensures Appended(p, OpenWrite(q), data, WriteOne(p, q, data).0)
  {
    OverlayAtEnd(BytesOf(q.disk.files, q.writeFileNum), Frame(data));
  }

  lemma AppendKeeps(p: Params, q: Queue, msgs: seq<Message>, data: Message, w: Queue)
    requires Sane(p) && Accepts(p, data) && Layout(p, q, msgs) && q.writeFile.Some? && Appended(p, q, data, w)
    ensures Layout(p, w, msgs + [data])
  {
    ChainAppend(p, q.disk.files, q.readFileNum, q.readPos, q.writeFileNum, q.writePos, msgs, data);
    if q.nextReadPos != q.readPos {
      assert (msgs + [data])[0] == msgs[0];
      ChainOrdered(p, q.disk.files, q.readFileNum, q.readPos, q.writeFileNum, q.writePos, msgs);
    }
  }

  lemma PutKeeps(p: Params, q: Queue, msgs: seq<Message>, data: Message)
    requires Sane(p) && Layout(p, q, msgs)
    ensures WriteOne(p, q, data).1 == Accepts(p, data)
    ensures Layout(p, WriteOne(p, q, data).0, if Accepts(p, data) then msgs + [data] else msgs)
  {
    OpenKeeps(p, q, msgs);
    if Accepts(p, data) {
      WriteOneAppends(p, q, data);
      AppendKeeps(p, OpenWrite(q), msgs, data, WriteOne(p, q, data).0);
    }
  }

  lemma EmptyKeeps(p: Params, q: Queue, msgs: seq<Message>)
    requires Layout(p, q, msgs)
    ensures Layout(p, DeleteAllFiles(q), [])
  {
  }

  /** Close then New: only readPos is persisted, so a message read ahead comes back undelivered. */
  lemma RestartKeeps(p: Params, q: Queue, msgs: seq<Message>)
    requires Layout(p, q, msgs)
    ensures Layout(p, New(Close(q)), msgs)
  {
  }

  lemma HandleKeeps(p: Params, q: Queue, msgs: seq<Message>, e: Event)
    requires Sane(p) && AtSelect(p, q, msgs) && Selectable(q, e)
    ensures SpecSelectable(msgs, e) && Respond(p, q, e) == SpecRespond(p, msgs, e)
    ensures Layout(p, Handle(p, q, e), SpecStep(p, msgs, e))
  {
    hide Chain, WriteOne, MoveForward, Advance, DeleteAllFiles, New, Close;
    match e
    case Deliver => DeliverKeeps(p, q.(count := q.count + 1), msgs);
    case Put(data) => PutKeeps(p, q.(count := q.count + 1), msgs, data);
    case EmptyAll => EmptyKeeps(p, q, msgs);
    case Restart => RestartKeeps(p, q, msgs);
    case _ =>
  }

  lemma SelectableRefines(p: Params, q: Queue, msgs: seq<Message>, e: Event)
    requires AtSelect(p, q, msgs)
    ensures Selectable(q, e) <==> SpecSelectable(msgs, e)
  {
  }

  lemma StepKeeps(p: Params, q: Queue, msgs: seq<Message>, e: Event)
    requires Sane(p) && AtSelect(p, q, msgs)
    ensures Step(p, q, e).Some? <==> SpecSelectable(msgs, e)
    ensures SpecSelectable(msgs, e) ==> AtSelect(p, Step(p, q, e).value, SpecStep(p, msgs, e))
  {
    SelectableRefines(p, q, msgs, e);
    if Selectable(q, e) {
      HandleKeeps(p, q, msgs, e);
      var h := Handle(p, q, e);
      ChainOrdered(p, h.disk.files, h.readFileNum, h.readPos, h.writeFileNum, h.writePos, SpecStep(p, msgs, e));
      ToSelectKeeps(p, h, SpecStep(p, msgs, e));
    }
  }

  // ----- whole runs -----

  /** FIFO refinement, for every list of events from an empty directory: exactly the lists of the
      plain sequence are runs of the queue, and the queue then holds what the sequence holds. */
  lemma {:induction false} RunRefines(p: Params, evs: seq<Event>)
    requires Sane(p)
    ensures Run(p, evs).Some? <==> SpecRun(p, evs).Some?
    ensures Run(p, evs).Some? ==> AtSelect(p, Run(p, evs).value, SpecRun(p, evs).value)
  {
    if evs == [] {
      ToSelectKeeps(p, New(EMPTY_DISK), []);
    } else {
      var n := |evs| - 1;
      RunRefines(p, evs[..n]);
      if Run(p, evs[..n]).Some? {
        StepKeeps(p, Run(p, evs[..n]).value, SpecRun(p, evs[..n]).value, evs[n]);
      }
    }
  }

  /** What the client of one more event sees after any run: the answer of the plain sequence, and its
      length as Depth() once the loop is back in select. */
  lemma AnswersRefine(p: Params, evs: seq<Event>, e: Event)
    requires Sane(p) && Run(p, evs).Some? && SpecRun(p, evs).Some?
    requires SpecSelectable(SpecRun(p, evs).value, e)
    ensures Respond(p, Run(p, evs).value, e) == SpecRespond(p, SpecRun(p, evs).value, e)
    ensures Step(p, Run(p, evs).value, e).Some?
    ensures Step(p, Run(p, evs).value, e).value.depth == |SpecStep(p, SpecRun(p, evs).value, e)|
    ensures e.Put? ==>
              var ok := p.minMsgSize <= |e.data| <= p.maxMsgSize;
              && Respond(p, Run(p, evs).value, e) == PutResult(ok)
              && SpecStep(p, SpecRun(p, evs).value, e) == SpecRun(p, evs).value + if ok then [e.data] else []
  {
    RunRefines(p, evs);
    var q, msgs := Run(p, evs).value, SpecRun(p, evs).value;
    SelectableRefines(p, q, msgs, e);
    HandleKeeps(p, q, msgs, e);
    StepKeeps(p, q, msgs, e);
  }

  // ----- which read errors can happen -----

  /** Files the writer has left were rolled where they end; no cursor stands past a reader roll. */
  ghost predicate LeftFilesRolled(p: Params, files: map<nat, seq<Byte>>, wf: nat) {
    forall f | f in files && f < wf :: |files[f]| > 0 && WriterRolls(p, |files[f]|)
  }

  ghost predicate Rolled(p: Params, q: Queue) {
    && LeftFilesRolled(p, q.disk.files, q.writeFileNum)
    && (q.readPos > 0 ==> !ReaderRolls(p, q.readPos))
    && (q.nextReadPos > 0 ==> !ReaderRolls(p, q.nextReadPos))
  }

  /** Only a file of dqueue filled to exactly maxBytesPerFile can end under the read cursor. */
  lemma FileEndIsExactlyFull(p: Params, q: Queue)
    requires Rolled(p, q) && AtFileEnd(q.disk.files, q.readFileNum, q.readPos, q.writeFileNum)
    ensures p.rollWhenFull && q.readPos == p.maxBytesPerFile
  {
    assert q.readFileNum in q.disk.files;
  }

  lemma IterateRolled(p: Params, q: Queue)
    requires Rolled(p, q) && Ordered(q)
    requires HasData(q) && RecordAt(p, q.disk.files, q.readFileNum, q.readPos).None? ==> q.readFileNum < q.writeFileNum
    requires q.readFile.Some? ==> q.readFile.value == q.nextReadPos
    ensures Rolled(p, Iterate(p, q).q)
    ensures Iterate(p, q).Retry? ==> Iterate(p, q).q.readPos == 0 && Ordered(Iterate(p, q).q)
  {
    hide FrameAt;
  }

  /** The loop handles at most one read error on its way to select, exactly when the cursor stands at
      the end of a file the writer has left. */
  lemma {:induction false} ReadErrorsAt(p: Params, q: Queue, msgs: seq<Message>)
    requires Layout(p, q, msgs) && Rolled(p, q) && Ordered(q)
    ensures ReadErrors(p, q) == if AtFileEnd(q.disk.files, q.readFileNum, q.readPos, q.writeFileNum) then 1 else 0
    ensures Rolled(p, ToSelect(p, q))
    decreases Distance(q)
  {
    ChainOrdered(p, q.disk.files, q.readFileNum, q.readPos, q.writeFileNum, q.writePos, msgs);
    IterateRolled(p, q);
    IterateKeeps(p, q, msgs);
    hide Iterate, Chain, ReadAhead;
    match Iterate(p, q)
    case Select(_) =>
    case Retry(q') => ReadErrorsAt(p, q', msgs);
  }

  lemma PutRolled(p: Params, q: Queue, data: Message)
    requires Sane(p) && Rolled(p, q) && q.writePos == |BytesOf(q.disk.files, q.writeFileNum)|
    requires q.writeFile.Some? ==> q.writeFile.value == q.writeFileNum
    ensures Rolled(p, WriteOne(p, q, data).0)
  {
    if Accepts(p, data) {
      WriteOneAppends(p, q, data);
      var w := WriteOne(p, q, data).0;
      forall f | f in w.disk.files && f < w.writeFileNum
        ensures |w.disk.files[f]| > 0 && WriterRolls(p, |w.disk.files[f]|)
      {
        if f == q.writeFileNum {
          assert w.disk.files[f] == BytesOf(q.disk.files, f) + Frame(data);
        } else {
          assert f in q.disk.files && w.disk.files[f] == q.disk.files[f];
        }
      }
    }
  }

  lemma AdvanceRolled(p: Params, q: Queue)
    requires Rolled(p, q)
    ensures Rolled(p, Advance(q))
  {
  }

  lemma DeliverRolled(p: Params, q: Queue, msgs: seq<Message>)
    requires Sane(p) && AtSelect(p, q, msgs) && Rolled(p, q) && HasData(q)
    ensures Rolled(p, Handle(p, q, Deliver))
  {
    hide Chain, MoveForward, Advance, LeftFilesRolled;
    var counted := q.(count := q.count + 1);
    DeliverKeeps(p, counted, msgs);
    AdvanceRolled(p, counted);
  }

  lemma EmptyRolled(p: Params, q: Queue)
    requires Rolled(p, q) && q.readFileNum <= q.writeFileNum
    ensures Rolled(p, DeleteAllFiles(q))
  {
    forall f | f in DeleteAllFiles(q).disk.files && f < q.writeFileNum + 1
      ensures f in q.disk.files && f < q.writeFileNum
    {
    }
  }

  lemma HandleRolled(p: Params, q: Queue, e: Event)
    requires Sane(p) && Rolled(p, q) && q.readFileNum <= q.writeFileNum
    requires q.writePos == |BytesOf(q.disk.files, q.writeFileNum)|
    requires q.writeFile.Some? ==> q.writeFile.value == q.writeFileNum
    requires e != Deliver
    ensures Rolled(p, Handle(p, q, e))
  {
    hide WriteOne, LeftFilesRolled;
    match e
    case Put(data) => PutRolled(p, q.(count := q.count + 1), data);
    case EmptyAll => EmptyRolled(p, q);
    case _ =>
  }

  lemma StepErrors(p: Params, q: Queue, msgs: seq<Message>, e: Event)
    requires Sane(p) && AtSelect(p, q, msgs) && Rolled(p, q) && Selectable(q, e)
    ensures var h := Handle(p, q, e);
            && Ordered(h) && Rolled(p, h) && Rolled(p, ToSelect(p, h))
            && ReadErrors(p, h) == (if AtFileEnd(h.disk.files, h.readFileNum, h.readPos, h.writeFileNum) then 1 else 0)
  {
    hide Handle, Rolled, ReadErrors, ToSelect;
    var h := Handle(p, q, e);
    HandleKeeps(p, q, msgs, e);
    ChainOrdered(p, q.disk.files, q.readFileNum, q.readPos, q.writeFileNum, q.writePos, msgs);
    if e == Deliver {
      DeliverRolled(p, q, msgs);
    } else {
      HandleRolled(p, q, e);
    }
    ChainOrdered(p, h.disk.files, h.readFileNum, h.readPos, h.writeFileNum, h.writePos, SpecStep(p, msgs, e));
    ReadErrorsAt(p, h, SpecStep(p, msgs, e));
  }

  lemma {:induction false} RunRolled(p: Params, evs: seq<Event>)
    requires Sane(p) && Run(p, evs).Some?
    ensures Rolled(p, Run(p, evs).value)
  {
    if evs == [] {
      ReadErrorsAt(p, New(EMPTY_DISK), []);
    } else {
      var n := |evs| - 1;
      RunRolled(p, evs[..n]);
      RunRefines(p, evs[..n]);
      StepErrors(p, Run(p, evs[..n]).value, SpecRun(p, evs[..n]).value, evs[n]);
    }
  }

  /** Over every run: diskqueue never takes the read-error branch; dqueue takes it at most once per
      event, exactly when the cursor stands at the end of a file filled to maxBytesPerFile that the
      writer has left; and neither ever resets the depth or skips files in checkTailCorruption. */
  lemma HandledErrors(p: Params, evs: seq<Event>, e: Event)
    requires Sane(p) && Run(p, evs).Some? && Selectable(Run(p, evs).value, e)
    ensures var q := Run(p, evs).value;
            var h := Handle(p, q, e);
            && Ordered(h)
            && ReadErrors(p, h) == (if AtFileEnd(h.disk.files, h.readFileNum, h.readPos, h.writeFileNum) then 1 else 0)
            && (ReadErrors(p, h) == 1 ==> p.rollWhenFull && h.readPos == p.maxBytesPerFile)
            && (e == Deliver ==> CheckTailCorruption(Advance(q), q.depth - 1) == Advance(q))
  {
    RunRefines(p, evs);
    RunRolled(p, evs);
    var q, msgs := Run(p, evs).value, SpecRun(p, evs).value;
    var h := Handle(p, q, e);
    StepErrors(p, q, msgs, e);
    if AtFileEnd(h.disk.files, h.readFileNum, h.readPos, h.writeFileNum) {
      FileEndIsExactlyFull(p, h);
    }
    if e == Deliver {
      DeliverKeeps(p, q, msgs);
    }
  }
}
