/** The queue over a directory in which files the reader has not opened are truncated or overwritten. */
module DiskDamage {
  import opened Options
  import opened DiskFrames
  import opened DiskModel
  import opened DiskFifo

  /** Damage replaces the bytes of a data file behind the one being read and never lengthens it. */
  datatype Act = Io(e: Event) | Damage(file: nat, bytes: seq<Byte>)

  predicate Possible(q: Queue, a: Act) {
    match a
    case Io(e) => Selectable(q, e)
    case Damage(f, bytes) => f > q.readFileNum && f in q.disk.files && |bytes| <= |q.disk.files[f]|
  }

  function ActStep(p: Params, q: Queue, a: Act): Option<Queue>
    requires Sane(p)
  {
    if !Possible(q, a) then None
    else match a
      case Io(e) => Step(p, q, e)
      case Damage(f, bytes) => Some(q.(disk := q.disk.(files := q.disk.files[f := bytes])))
  }

  function ActRun(p: Params, q: Queue, acts: seq<Act>): Option<Queue>
    requires Sane(p)
  {
    if acts == [] then Some(q)
    else
      var before := ActRun(p, q, acts[..|acts| - 1]);
      if before.None? then None else ActStep(p, before.value, acts[|acts| - 1])
  }

  // ----- what holds whatever the files contain -----

  /** The next cursor is ahead of the cursor and not past the write cursor. */
  predicate NextInside(q: Queue) {
    || (q.nextReadFileNum == q.readFileNum && q.readPos < q.nextReadPos
        && (q.readFileNum == q.writeFileNum ==> q.nextReadPos <= q.writePos))
    || (q.nextReadFileNum == q.readFileNum + 1 && q.nextReadPos == 0 && q.readFileNum < q.writeFileNum)
  }

  ghost predicate Files(p: Params, files: map<nat, seq<Byte>>, wf: nat, wp: nat) {
    && (forall f | f in files :: f <= wf)
    && |BytesOf(files, wf)| <= wp
    && (wp > 0 ==> !WriterRolls(p, wp))
  }

  ghost predicate Inside(p: Params, q: Queue) {
    && Ordered(q)
    && (forall f | f in q.disk.files :: q.readFileNum <= f)
    && Files(p, q.disk.files, q.writeFileNum, q.writePos)
    && (q.writeFile.Some? ==> q.writeFile.value == q.writeFileNum)
    && (q.readFile.Some? ==> q.readFile.value == q.nextReadPos && q.nextReadFileNum == q.readFileNum)
    && (q.nextReadPos != q.readPos ==> NextInside(q))
  }

  ghost predicate InsideAtSelect(p: Params, q: Queue) {
    Inside(p, q) && (HasData(q) ==> NextInside(q))
  }

  /** The number of consecutive read errors is bounded by the files left, whatever they contain. */
  lemma {:induction false} ReadErrorsBounded(p: Params, q: Queue)
    requires Ordered(q)
    ensures ReadErrors(p, q) <= q.writeFileNum - q.readFileNum + 1
    ensures ReadErrors(p, q) <= Distance(q)
    decreases Distance(q)
  {
    if Iterate(p, q).Retry? {
      RetryMoves(p, q);
      hide Iterate;
      ReadErrorsBounded(p, Iterate(p, q).q);
    }
  }

  lemma ReadOneInside(p: Params, q: Queue)
    requires Inside(p, q) && HasData(q) && q.nextReadPos == q.readPos && ReadOne(p, q).1.Some?
    ensures InsideAtSelect(p, ReadOne(p, q).0.(dataRead := ReadOne(p, q).1.value))
  {
    hide FrameAt;
  }

  lemma ReadErrorInside(p: Params, q: Queue)
    requires Inside(p, q) && q.readFile.None?
    ensures Inside(p, HandleReadError(q))
  {
  }

  lemma IterateInside(p: Params, q: Queue)
    requires Inside(p, q)
    ensures match Iterate(p, q)
            case Select(r) => InsideAtSelect(p, r)
            case Retry(r) => Inside(p, r)
  {
    var q1 := SyncIfDue(p, q);
    assert Inside(p, q1);
    if HasData(q1) && q1.nextReadPos == q1.readPos {
      if ReadOne(p, q1).1.Some? {
        ReadOneInside(p, q1);
      } else {
        ReadErrorInside(p, ReadOne(p, q1).0);
      }
    }
  }

  lemma {:induction false} ToSelectInside(p: Params, q: Queue)
    requires Inside(p, q)
    ensures InsideAtSelect(p, ToSelect(p, q))
    decreases Distance(q)
  {
    IterateInside(p, q);
    if Iterate(p, q).Retry? {
      RetryMoves(p, q);
      hide Iterate, Inside;
      ToSelectInside(p, Iterate(p, q).q);
    }
  }

  lemma DeliverInside(p: Params, q: Queue)
    requires InsideAtSelect(p, q) && HasData(q)
    ensures Inside(p, MoveForward(q))
  {
  }

  /** However wrong the count has become, a delivery that reaches the write cursor sets it to zero. */
  lemma TailResetsDepth(p: Params, q: Queue)
    requires InsideAtSelect(p, q) && HasData(q) && !HasData(MoveForward(q))
    ensures MoveForward(q).depth == 0
    ensures MoveForward(q).readFileNum == q.writeFileNum == MoveForward(q).writeFileNum
    ensures MoveForward(q).readPos == q.writePos == MoveForward(q).writePos
  {
  }

  lemma OpenInside(p: Params, q: Queue)
    requires Inside(p, q)
    ensures Inside(p, OpenWrite(q)) && OpenWrite(q).writeFile == Some(q.writeFileNum)
    ensures OpenWrite(q).writePos == q.writePos && OpenWrite(q).writeFileNum == q.writeFileNum
  {
  }

  lemma PutInside(p: Params, q: Queue, data: Message)
    requires Sane(p) && Inside(p, q)
    ensures Inside(p, WriteOne(p, q, data).0)
  {
    hide Frame, Overlay, OpenWrite;
    OpenInside(p, q);
  }

  lemma HandleInside(p: Params, q: Queue, e: Event)
    requires Sane(p) && InsideAtSelect(p, q) && Selectable(q, e)
    ensures Inside(p, Handle(p, q, e))
  {
    hide WriteOne, MoveForward;
    match e
    case Deliver => DeliverInside(p, q.(count := q.count + 1));
    case Put(data) => PutInside(p, q.(count := q.count + 1), data);
    case _ =>
  }

  lemma ActInside(p: Params, q: Queue, a: Act)
    requires Sane(p) && InsideAtSelect(p, q) && Possible(q, a)
    ensures ActStep(p, q, a).Some? && InsideAtSelect(p, ActStep(p, q, a).value)
  {
    match a
    case Io(e) =>
      HandleInside(p, q, e);
      hide Handle;
      ToSelectInside(p, Handle(p, q, e));
    case Damage(f, bytes) =>
  }

  /** Whatever is damaged and whenever, the read cursor never passes the write cursor, no event is ever
      refused that the queue could have selected, and every file the reader has left is gone. */
  lemma {:induction false} ActRunInside(p: Params, q: Queue, acts: seq<Act>)
    requires Sane(p) && InsideAtSelect(p, q) && ActRun(p, q, acts).Some?
    ensures InsideAtSelect(p, ActRun(p, q, acts).value)
  {
    if acts != [] {
      var n := |acts| - 1;
      ActRunInside(p, q, acts[..n]);
      ActInside(p, ActRun(p, q, acts[..n]).value, acts[n]);
    }
  }

  lemma StartsInside(p: Params)
    requires Sane(p)
    ensures InsideAtSelect(p, ToSelect(p, New(EMPTY_DISK)))
  {
    ToSelectInside(p, New(EMPTY_DISK));
  }

  // ----- an undamaged file is delivered whole -----

  /** From offset `off` the file holds exactly the records of `ms` until the reader leaves it. */
  ghost predicate Intact(p: Params, f: seq<Byte>, off: nat, ms: seq<Message>)
    decreases |ms|
  {
    if ms == [] then off == |f|
    else
      && FrameAt(p.minMsgSize, p.maxMsgSize, f, off) == Some(ms[0])
      && var end := off + 4 + |ms[0]|;
         if ReaderRolls(p, end) then ms[1..] == [] else Intact(p, f, end, ms[1..])
  }

  /** The messages delivered while the reader was on file g. */
  function DeliveredFrom(p: Params, q: Queue, acts: seq<Act>, g: nat): seq<Message>
    requires Sane(p)
  {
    if acts == [] then []
    else
      var n := |acts| - 1;
      var before := ActRun(p, q, acts[..n]);
      DeliveredFrom(p, q, acts[..n], g) + if before.Some? then DeliveredNow(before.value, acts[n], g) else []
  }

  /** The messages accepted while the writer was on file g. */
  function AcceptedOn(p: Params, q: Queue, acts: seq<Act>, g: nat): seq<Message>
    requires Sane(p)
  {
    if acts == [] then []
    else
      var n := |acts| - 1;
      var before := ActRun(p, q, acts[..n]);
      AcceptedOn(p, q, acts[..n], g) + if before.Some? then Accepted(p, before.value, acts[n], g) else []
  }

  function Accepted(p: Params, q: Queue, a: Act, g: nat): seq<Message> {
    if a.Io? && a.e.Put? && Accepts(p, a.e.data) && q.writeFileNum == g then [a.e.data] else []
  }

  function DeliveredNow(q: Queue, a: Act, g: nat): seq<Message> {
    if a == Io(Deliver) && q.readFileNum == g then [q.dataRead] else []
  }

  /** Empty throws away what is left of the files from the read file to the write file. */
  predicate Empties(q: Queue, a: Act, g: nat) {
    a == Io(EmptyAll) && q.readFileNum <= g <= q.writeFileNum
  }

  predicate EmptiedOn(p: Params, q: Queue, acts: seq<Act>, g: nat)
    requires Sane(p)
  {
    acts != []
    && var n := |acts| - 1;
       var before := ActRun(p, q, acts[..n]);
       EmptiedOn(p, q, acts[..n], g) || (before.Some? && Empties(before.value, acts[n], g))
  }

  /** Of the messages `ms` of file g, `got` have been delivered and the rest is still in the file. */
  ghost predicate Track(p: Params, q: Queue, g: nat, ms: seq<Message>, got: seq<Message>) {
    if q.readFileNum > g then got == ms
    else
      && (q.writeFileNum == g ==> |BytesOf(q.disk.files, g)| == q.writePos)
      && if q.readFileNum < g then got == [] && Intact(p, BytesOf(q.disk.files, g), 0, ms)
         else
           && |got| <= |ms| && got == ms[..|got|]
           && Intact(p, BytesOf(q.disk.files, g), q.readPos, ms[|got|..])
  }

  ghost predicate TrackAhead(p: Params, q: Queue, g: nat, ms: seq<Message>, got: seq<Message>) {
    && |got| < |ms| && q.dataRead == ms[|got|]
    && (q.nextReadFileNum, q.nextReadPos) == NextCursor(p, g, q.readPos, |q.dataRead|)
  }

  ghost predicate Tracked(p: Params, q: Queue, g: nat, ms: seq<Message>, got: seq<Message>) {
    Track(p, q, g, ms, got) && (q.readFileNum == g && q.nextReadPos != q.readPos ==> TrackAhead(p, q, g, ms, got))
  }

  ghost predicate TrackedAtSelect(p: Params, q: Queue, g: nat, ms: seq<Message>, got: seq<Message>) {
    Track(p, q, g, ms, got) && (q.readFileNum == g && HasData(q) ==> TrackAhead(p, q, g, ms, got))
  }

  /** On file g the reader finds the next of its messages, or the end of the file. */
  lemma TrackedRecord(p: Params, q: Queue, g: nat, ms: seq<Message>, got: seq<Message>)
    requires Track(p, q, g, ms, got) && q.readFileNum == g
    ensures RecordAt(p, q.disk.files, g, q.readPos) == if |got| < |ms| then Some(ms[|got|]) else None
  {
  }

  lemma ReadOneTracked(p: Params, q: Queue, g: nat, ms: seq<Message>, got: seq<Message>)
    requires Inside(p, q) && Track(p, q, g, ms, got) && HasData(q) && q.nextReadPos == q.readPos
    ensures var (r, rec) := ReadOne(p, q);
            if rec.None? then r == q.(readFile := None) && (q.readFileNum == g ==> got == ms)
            else TrackedAtSelect(p, r.(dataRead := rec.value), g, ms, got)
  {
    hide RecordAt, Intact, Files, BytesOf;
    if q.readFileNum == g {
      TrackedRecord(p, q, g, ms, got);
    }
  }

  lemma ReadErrorTracked(p: Params, q: Queue, g: nat, ms: seq<Message>, got: seq<Message>)
    requires Inside(p, q) && Track(p, q, g, ms, got) && (q.readFileNum == g ==> got == ms)
    ensures Tracked(p, HandleReadError(q), g, ms, got)
  {
    hide Intact, NextInside;
  }

  lemma IterateTracked(p: Params, q: Queue, g: nat, ms: seq<Message>, got: seq<Message>)
    requires Inside(p, q) && Tracked(p, q, g, ms, got)
    ensures match Iterate(p, q)
            case Select(r) => TrackedAtSelect(p, r, g, ms, got)
            case Retry(r) => Tracked(p, r, g, ms, got)
  {
    hide ReadOne, HandleReadError, Intact, Files;
    var q1 := SyncIfDue(p, q);
    assert Inside(p, q1) && Tracked(p, q1, g, ms, got);
    if HasData(q1) && q1.nextReadPos == q1.readPos {
      ReadOneTracked(p, q1, g, ms, got);
      if ReadOne(p, q1).1.None? {
        ReadErrorTracked(p, ReadOne(p, q1).0, g, ms, got);
      }
    }
  }

  lemma {:induction false} ToSelectTracked(p: Params, q: Queue, g: nat, ms: seq<Message>, got: seq<Message>)
    requires Inside(p, q) && Tracked(p, q, g, ms, got)
    ensures TrackedAtSelect(p, ToSelect(p, q), g, ms, got)
    decreases Distance(q)
  {
    IterateTracked(p, q, g, ms, got);
    if Iterate(p, q).Retry? {
      RetryMoves(p, q);
      IterateInside(p, q);
      hide Iterate, Inside, Tracked;
      ToSelectTracked(p, Iterate(p, q).q, g, ms, got);
    }
  }

  lemma DeliverTracked(p: Params, q: Queue, g: nat, ms: seq<Message>, got: seq<Message>)
    requires InsideAtSelect(p, q) && HasData(q) && TrackedAtSelect(p, q, g, ms, got)
    ensures Tracked(p, MoveForward(q), g, ms, if q.readFileNum == g then got + [q.dataRead] else got)
  {
    hide FrameAt, Files;
    if q.readFileNum == g {
      assert ms[|got|..][1..] == ms[|got| + 1..];
      assert ms[..|got| + 1] == got + [q.dataRead];
    }
  }

  /** A record appended to a file the reader does not leave early is one more message of the file. */
  lemma {:induction false} IntactAppend(p: Params, f: seq<Byte>, off: nat, ms: seq<Message>, m: Message)
    requires Sane(p) && Accepts(p, m) && Intact(p, f, off, ms) && (|f| > 0 ==> !ReaderRolls(p, |f|))
    ensures Intact(p, f + Frame(m), off, ms + [m])
    decreases |ms|
  {
    hide FrameAt, Frame;
    if ms == [] {
      FrameRoundTrip(p.minMsgSize, p.maxMsgSize, f, m);
      assert ([m])[1..] == [] && ms + [m] == [m];
    } else {
      FrameAtPrefix(p.minMsgSize, p.maxMsgSize, f, f + Frame(m), off, |f|);
      IntactAppend(p, f, off + 4 + |ms[0]|, ms[1..], m);
      assert (ms + [m])[1..] == ms[1..] + [m];
    }
  }

  lemma WriteLeavesReader(p: Params, q: Queue, data: Message)
    requires Sane(p)
    ensures var r := WriteOne(p, q, data).0;
            (r.readFileNum, r.readPos, r.nextReadFileNum, r.nextReadPos, r.dataRead)
            == (q.readFileNum, q.readPos, q.nextReadFileNum, q.nextReadPos, q.dataRead)
  {
    hide Overlay, Frame, Accepts, WriterRolls, BytesOf;
  }

  /** What a write does to file g: on the write file it appends the record, elsewhere nothing. */
  lemma WriteTouches(p: Params, q: Queue, data: Message, g: nat)
    requires Sane(p) && Inside(p, q) && (q.writeFileNum == g ==> |BytesOf(q.disk.files, g)| == q.writePos)
    ensures var r := WriteOne(p, q, data).0;
            && BytesOf(r.disk.files, g) == BytesOf(q.disk.files, g)
               + (if q.writeFileNum == g && Accepts(p, data) then Frame(data) else [])
            && (r.writeFileNum == g ==> |BytesOf(r.disk.files, g)| == r.writePos)
            && r.writeFileNum >= q.writeFileNum && (r.writeFileNum > q.writeFileNum ==> Accepts(p, data))
  {
    hide NextInside, Overlay, Frame, Ordered, WriterRolls;
    var open := OpenWrite(q);
    assert open.writeFile == Some(q.writeFileNum) && BytesOf(open.disk.files, g) == BytesOf(q.disk.files, g);
    if q.writeFileNum == g && Accepts(p, data) {
      OverlayAtEnd(BytesOf(q.disk.files, g), Frame(data));
    }
  }

  lemma PutTracked(p: Params, q: Queue, data: Message, g: nat, ms: seq<Message>, got: seq<Message>)
    requires Sane(p) && InsideAtSelect(p, q) && TrackedAtSelect(p, q, g, ms, got)
    ensures Tracked(p, WriteOne(p, q, data).0, g, ms + Accepted(p, q, Io(Put(data)), g), got)
  {
    hide WriteOne, FrameAt, Frame, Overlay, Intact;
    WriteTouches(p, q, data, g);
    WriteLeavesReader(p, q, data);
    assert ms + [] == ms;
    if q.readFileNum <= g && q.writeFileNum == g && Accepts(p, data) {
      var off := if q.readFileNum < g then 0 else q.readPos;
      IntactAppend(p, BytesOf(q.disk.files, g), off, ms[|got|..], data);
      assert (ms + [data])[|got|..] == ms[|got|..] + [data];
    } else {
      assert BytesOf(q.disk.files, g) + [] == BytesOf(q.disk.files, g);
    }
  }

  /** Empty changes nothing for a file the reader has passed or the writer has not reached. */
  lemma EmptyTracked(p: Params, q: Queue, g: nat, ms: seq<Message>, got: seq<Message>)
    requires InsideAtSelect(p, q) && TrackedAtSelect(p, q, g, ms, got) && !Empties(q, Io(EmptyAll), g)
    ensures Tracked(p, DeleteAllFiles(q).(count := 0), g, ms, got)
  {
    hide FrameAt;
  }

  lemma HandleTracked(p: Params, q: Queue, e: Event, g: nat, ms: seq<Message>, got: seq<Message>)
    requires Sane(p) && InsideAtSelect(p, q) && Selectable(q, e) && !Empties(q, Io(e), g)
    requires TrackedAtSelect(p, q, g, ms, got)
    ensures Tracked(p, Handle(p, q, e), g, ms + Accepted(p, q, Io(e), g), got + DeliveredNow(q, Io(e), g))
  {
    hide WriteOne, MoveForward, DeleteAllFiles, Intact;
    assert ms + [] == ms && got + [] == got;
    match e
    case Deliver => DeliverTracked(p, q.(count := q.count + 1), g, ms, got);
    case Put(data) => PutTracked(p, q.(count := q.count + 1), data, g, ms, got);
    case EmptyAll => EmptyTracked(p, q, g, ms, got);
    case _ =>
  }

  lemma ActTracked(p: Params, q: Queue, a: Act, g: nat, ms: seq<Message>, got: seq<Message>)
    requires Sane(p) && InsideAtSelect(p, q) && ActStep(p, q, a).Some?
    requires !Empties(q, a, g) && (a.Damage? ==> a.file != g)
    requires TrackedAtSelect(p, q, g, ms, got)
    ensures TrackedAtSelect(p, ActStep(p, q, a).value, g, ms + Accepted(p, q, a, g), got + DeliveredNow(q, a, g))
  {
    assert ms + [] == ms && got + [] == got;
    match a
    case Io(e) =>
      HandleTracked(p, q, e, g, ms, got);
      HandleInside(p, q, e);
      hide Handle, Intact;
      ToSelectTracked(p, Handle(p, q, e), g, ms + Accepted(p, q, a, g), got + DeliveredNow(q, a, g));
    case Damage(f, bytes) =>
  }

  lemma TrackedPrefix(p: Params, q: Queue, g: nat, ms: seq<Message>, got: seq<Message>)
    requires TrackedAtSelect(p, q, g, ms, got)
    ensures got <= ms && (q.readFileNum > g ==> got == ms)
  {
  }

  // ----- the reader never goes back -----

  lemma {:induction false} ToSelectReader(p: Params, q: Queue)
    requires Ordered(q)
    ensures ToSelect(p, q).readFileNum >= q.readFileNum
    decreases Distance(q)
  {
    if Iterate(p, q).Retry? {
      RetryMoves(p, q);
      ToSelectReader(p, Iterate(p, q).q);
    }
  }

  lemma HandleReader(p: Params, q: Queue, e: Event)
    requires Sane(p) && InsideAtSelect(p, q) && Selectable(q, e)
    ensures Handle(p, q, e).readFileNum >= q.readFileNum
    ensures e == EmptyAll ==> Handle(p, q, e).readFileNum > q.writeFileNum
  {
    hide Remove, Overlay, Frame, Accepts, WriterRolls, BytesOf, Files;
  }

  lemma ActReader(p: Params, q: Queue, a: Act)
    requires Sane(p) && InsideAtSelect(p, q) && ActStep(p, q, a).Some?
    ensures ActStep(p, q, a).value.readFileNum >= q.readFileNum
    ensures a == Io(EmptyAll) ==> ActStep(p, q, a).value.readFileNum > q.writeFileNum
  {
    hide ToSelect, Handle;
    if a.Io? {
      HandleReader(p, q, a.e);
      ToSelectReader(p, Handle(p, q, a.e));
    }
  }

  // ----- whole runs -----

  /** What is left of file g was thrown away, or it is still being delivered. */
  ghost predicate TrackedUnlessEmptied(p: Params, q: Queue, g: nat, ms: seq<Message>, got: seq<Message>, emptied: bool)
  {
    if emptied then q.readFileNum > g && got <= ms else TrackedAtSelect(p, q, g, ms, got)
  }

  lemma ActTrackedUnlessEmptied(p: Params, q: Queue, a: Act, g: nat, ms: seq<Message>, got: seq<Message>, emptied: bool)
    requires Sane(p) && InsideAtSelect(p, q) && ActStep(p, q, a).Some? && (a.Damage? ==> a.file != g)
    requires TrackedUnlessEmptied(p, q, g, ms, got, emptied)
    ensures TrackedUnlessEmptied(p, ActStep(p, q, a).value, g, ms + Accepted(p, q, a, g), got + DeliveredNow(q, a, g),
                                 emptied || Empties(q, a, g))
  {
    hide ActStep, TrackedAtSelect, Files, NextInside;
    ActReader(p, q, a);
    assert ms + [] == ms && got + [] == got;
    if !emptied {
      TrackedPrefix(p, q, g, ms, got);
      if !Empties(q, a, g) {
        ActTracked(p, q, a, g, ms, got);
      }
    }
  }

  /** An undamaged file is delivered whole and in order, whatever happens to the other files, to the writer
      and to the process: of the messages it holds and those accepted into it later, nothing while the
      reader is before it, a prefix while the reader is on it, all of them afterwards, unless an Empty
      threw the rest of it away. */
  lemma {:induction false} DeliveredWhole(p: Params, q: Queue, acts: seq<Act>, g: nat, ms: seq<Message>)
    requires Sane(p) && InsideAtSelect(p, q) && ActRun(p, q, acts).Some?
    requires g >= q.readFileNum && TrackedAtSelect(p, q, g, ms, [])
    requires forall a | a in acts && a.Damage? :: a.file != g
    ensures TrackedUnlessEmptied(p, ActRun(p, q, acts).value, g, ms + AcceptedOn(p, q, acts, g),
                                 DeliveredFrom(p, q, acts, g), EmptiedOn(p, q, acts, g))
    ensures DeliveredFrom(p, q, acts, g) <= ms + AcceptedOn(p, q, acts, g)
    ensures ActRun(p, q, acts).value.readFileNum > g && !EmptiedOn(p, q, acts, g) ==>
              DeliveredFrom(p, q, acts, g) == ms + AcceptedOn(p, q, acts, g)
  {
    hide ActStep, InsideAtSelect, TrackedAtSelect, Accepted, DeliveredNow, Empties;
    if acts == [] {
      assert ms + [] == ms;
    } else {
      var n := |acts| - 1;
      var a := acts[n];
      assert forall b | b in acts[..n] :: b in acts;
      DeliveredWhole(p, q, acts[..n], g, ms);
      ActRunInside(p, q, acts[..n]);
      var r, got := ActRun(p, q, acts[..n]).value, DeliveredFrom(p, q, acts[..n], g);
      assert a in acts;
      ActTrackedUnlessEmptied(p, r, a, g, ms + AcceptedOn(p, q, acts[..n], g), got, EmptiedOn(p, q, acts[..n], g));
      assert ms + AcceptedOn(p, q, acts, g) == ms + AcceptedOn(p, q, acts[..n], g) + Accepted(p, r, a, g);
    }
    if !EmptiedOn(p, q, acts, g) {
      TrackedPrefix(p, ActRun(p, q, acts).value, g, ms + AcceptedOn(p, q, acts, g), DeliveredFrom(p, q, acts, g));
    }
  }

  // ----- files the writer has not reached and files it has left -----

  /** A file the writer has not reached starts empty, so all it ever delivers is what is accepted into it,
      whatever the state of the files before it. */
  lemma FreshFile(p: Params, q: Queue, g: nat)
    requires InsideAtSelect(p, q) && g > q.writeFileNum
    ensures TrackedAtSelect(p, q, g, [], [])
  {
  }

  lemma {:induction false} ToSelectWriter(p: Params, q: Queue)
    requires Ordered(q)
    ensures ToSelect(p, q).writeFileNum >= q.writeFileNum
    decreases Distance(q)
  {
    if Iterate(p, q).Retry? {
      RetryMoves(p, q);
      ToSelectWriter(p, Iterate(p, q).q);
    }
  }

  lemma HandleWriter(p: Params, q: Queue, e: Event)
    requires Sane(p)
    ensures Handle(p, q, e).writeFileNum >= q.writeFileNum
  {
    hide Remove, Overlay, Frame, Accepts, WriterRolls, BytesOf;
  }

  lemma ActWriter(p: Params, q: Queue, a: Act)
    requires Sane(p) && ActStep(p, q, a).Some?
    ensures ActStep(p, q, a).value.writeFileNum >= q.writeFileNum
  {
    hide ToSelect, Handle;
    if a.Io? {
      HandleWriter(p, q, a.e);
      ToSelectWriter(p, Handle(p, q, a.e));
    }
  }

  /** The writer never returns to a file it has left. */
  lemma {:induction false} LeftForGood(p: Params, q: Queue, acts: seq<Act>, g: nat)
    requires Sane(p) && ActRun(p, q, acts).Some? && g < q.writeFileNum
    ensures g < ActRun(p, q, acts).value.writeFileNum && AcceptedOn(p, q, acts, g) == []
  {
    if acts != [] {
      hide ActStep;
      var n := |acts| - 1;
      LeftForGood(p, q, acts[..n], g);
      ActWriter(p, ActRun(p, q, acts[..n]).value, acts[n]);
    }
  }

  // ----- which messages those are -----

  /** The part of a queue that lies in the file under the cursor. */
  lemma {:induction false} ChainOnFile(p: Params, files: map<nat, seq<Byte>>, f: nat, pos: nat, wf: nat, wp: nat,
                                       msgs: seq<Message>) returns (k: nat)
    requires Chain(p, files, f, pos, wf, wp, msgs) && f < wf
    ensures k <= |msgs| && (!AtFileEnd(files, f, pos, wf) ==> k > 0)
    ensures Intact(p, BytesOf(files, f), pos, msgs[..k])
    ensures Chain(p, files, f + 1, 0, wf, wp, msgs[k..])
    decreases |msgs|
  {
    hide FrameAt;
    if AtFileEnd(files, f, pos, wf) {
      k := 0;
      assert msgs[0..] == msgs;
    } else {
      var next := NextCursor(p, f, pos, |msgs[0]|);
      if next.0 == f + 1 {
        k := 1;
      } else {
        k := ChainOnFile(p, files, f, next.1, wf, wp, msgs[1..]);
        k := k + 1;
        assert msgs[..k][1..] == msgs[1..][..k - 1];
        assert msgs[k..] == msgs[1..][k - 1..];
      }
    }
  }

  lemma {:induction false} ChainOnWriteFile(p: Params, files: map<nat, seq<Byte>>, pos: nat, wf: nat, wp: nat,
                                            msgs: seq<Message>)
    requires Chain(p, files, wf, pos, wf, wp, msgs) && |BytesOf(files, wf)| == wp
    ensures Intact(p, BytesOf(files, wf), pos, msgs)
    decreases |msgs|
  {
    hide FrameAt;
    if pos != wp {
      ChainOnWriteFile(p, files, NextCursor(p, wf, pos, |msgs[0]|).1, wf, wp, msgs[1..]);
    }
  }

  lemma {:induction false} ChainReaches(p: Params, files: map<nat, seq<Byte>>, f: nat, pos: nat, wf: nat, wp: nat,
                                        msgs: seq<Message>, g: nat) returns (j: nat)
    requires Chain(p, files, f, pos, wf, wp, msgs) && f < g <= wf
    ensures j <= |msgs| && Chain(p, files, g, 0, wf, wp, msgs[j..])
    decreases g - f
  {
    hide Chain, Intact;
    j := ChainOnFile(p, files, f, pos, wf, wp, msgs);
    if f + 1 < g {
      var i := ChainReaches(p, files, f + 1, 0, wf, wp, msgs[j..], g);
      assert msgs[j..][i..] == msgs[j + i..];
      j := j + i;
    }
  }

  lemma {:induction false} RunInside(p: Params, evs: seq<Event>)
    requires Sane(p) && Run(p, evs).Some?
    ensures InsideAtSelect(p, Run(p, evs).value)
  {
    if evs == [] {
      StartsInside(p);
    } else {
      var n := |evs| - 1;
      RunInside(p, evs[..n]);
      ActInside(p, Run(p, evs[..n]).value, Io(evs[n]));
    }
  }

  /** Where the reader begins on file g. */
  function FirstOffset(q: Queue, g: nat): nat {
    if g == q.readFileNum then q.readPos else 0
  }

  /** The messages queued in file g are a stretch msgs[j..k] of the queue. */
  lemma StretchOf(p: Params, q: Queue, msgs: seq<Message>, g: nat) returns (j: nat, k: nat)
    requires AtSelect(p, q, msgs) && InsideAtSelect(p, q) && g >= q.readFileNum
    ensures j <= k <= |msgs| && Intact(p, BytesOf(q.disk.files, g), FirstOffset(q, g), msgs[j..k])
    ensures (g == q.readFileNum ==> j == 0) && (g >= q.writeFileNum ==> k == |msgs|) && (g > q.writeFileNum ==> j == k)
    ensures g == q.readFileNum && HasData(q) ==> j < k
  {
    hide Chain, Intact;
    var files, wf, wp := q.disk.files, q.writeFileNum, q.writePos;
    if g > wf {
      j, k := |msgs|, |msgs|;
      FreshFile(p, q, g);
      assert msgs[j..k] == [];
    } else {
      j := 0;
      if q.readFileNum < g {
        j := ChainReaches(p, files, q.readFileNum, q.readPos, wf, wp, msgs, g);
      }
      assert msgs[0..] == msgs;
      if g < wf {
        k := ChainOnFile(p, files, g, FirstOffset(q, g), wf, wp, msgs[j..]);
        assert msgs[j..][..k] == msgs[j..j + k];
        k := j + k;
      } else {
        ChainOnWriteFile(p, files, FirstOffset(q, g), wf, wp, msgs[j..]);
        k := |msgs|;
        assert msgs[j..k] == msgs[j..];
      }
    }
  }

  /** Damage tolerance: after any run, the messages queued in a file g form a stretch msgs[j..k] of the
      queue, empty if g does not exist yet. As long as g itself is not damaged, that stretch and whatever
      is accepted into g later is delivered in order, and whole unless an Empty throws the rest of g away;
      nothing more is accepted into a file the writer has left. */
  lemma QueuedFileSurvives(p: Params, evs: seq<Event>, acts: seq<Act>, g: nat) returns (j: nat, k: nat)
    requires Sane(p) && Run(p, evs).Some? && SpecRun(p, evs).Some? && g >= Run(p, evs).value.readFileNum
    requires ActRun(p, Run(p, evs).value, acts).Some?
    requires forall a | a in acts && a.Damage? :: a.file != g
    ensures j <= k <= |SpecRun(p, evs).value|
    ensures var q, msgs := Run(p, evs).value, SpecRun(p, evs).value;
            && Intact(p, BytesOf(q.disk.files, g), FirstOffset(q, g), msgs[j..k])
            && (g == q.readFileNum ==> j == 0) && (g >= q.writeFileNum ==> k == |msgs|)
            && (g > q.writeFileNum ==> j == k)
            && DeliveredFrom(p, q, acts, g) <= msgs[j..k] + AcceptedOn(p, q, acts, g)
            && (ActRun(p, q, acts).value.readFileNum > g && !EmptiedOn(p, q, acts, g) ==>
                  DeliveredFrom(p, q, acts, g) == msgs[j..k] + AcceptedOn(p, q, acts, g))
            && (g < q.writeFileNum ==> AcceptedOn(p, q, acts, g) == [])
  {
    hide Run, SpecRun, ActRun, DeliveredFrom, AcceptedOn, EmptiedOn, Chain, Intact;
    RunRefines(p, evs);
    RunInside(p, evs);
    var q, msgs := Run(p, evs).value, SpecRun(p, evs).value;
    j, k := StretchOf(p, q, msgs, g);
    DeliveredWhole(p, q, acts, g, msgs[j..k]);
    if g < q.writeFileNum {
      LeftForGood(p, q, acts, g);
    }
  }
}
