/** diskQueue and its ioLoop as functions on a value holding every field of the struct, the two
    locals of the loop that survive an iteration (dataRead, count) and the directory it works on. */
module DiskModel {
  import opened Options
  import opened DiskFrames

  /** Construction parameters. `rollWhenFull` is the one difference between the two packages: the
      writer of dqueue rolls at `>= maxBytesPerFile`, the writer of diskqueue at `>`. */
  datatype Params = Params(maxBytesPerFile: int, minMsgSize: nat, maxMsgSize: nat, syncEvery: int, rollWhenFull: bool)

  predicate Sane(p: Params) {
    p.minMsgSize <= p.maxMsgSize <= 0x7FFF_FFFB
  }

  predicate WriterRolls(p: Params, pos: int) {
    pos > p.maxBytesPerFile || (p.rollWhenFull && pos == p.maxBytesPerFile)
  }

  predicate ReaderRolls(p: Params, pos: int) {
    pos > p.maxBytesPerFile
  }

  datatype Meta = Meta(depth: int, readFileNum: nat, readPos: nat, writeFileNum: nat, writePos: nat)

  /** The directory: data files, how many leading bytes of each are known to be fsynced, metadata. */
  datatype Disk = Disk(files: map<nat, seq<Byte>>, synced: map<nat, nat>, meta: Option<Meta>)

  /** `readFile` is the offset of the open read handle (always on file readFileNum), `writeFile` the
      file number of the open write handle (always positioned at writePos). */
  datatype Queue = Queue(
    readFileNum: nat, readPos: nat, writeFileNum: nat, writePos: nat, depth: int,
    nextReadFileNum: nat, nextReadPos: nat, needSync: bool,
    readFile: Option<nat>, writeFile: Option<nat>,
    dataRead: Message, count: nat, disk: Disk)

  function BytesOf(files: map<nat, seq<Byte>>, f: nat): seq<Byte> {
    if f in files then files[f] else []
  }

  function Remove(d: Disk, lo: int, hi: int): Disk {
    d.(files := map f | f in d.files && !(lo <= f <= hi) :: d.files[f],
       synced := map f | f in d.synced && !(lo <= f <= hi) :: d.synced[f])
  }

  /** The test guarding the read branch of ioLoop and the early return of checkTailCorruption. */
  predicate HasData(q: Queue) {
    q.readFileNum < q.writeFileNum || q.readPos < q.writePos
  }

  /** Where the reader goes after a record of total size `total` at (f, pos). */
  function NextCursor(p: Params, f: nat, pos: nat, size: nat): (nat, nat) {
    if ReaderRolls(p, pos + 4 + size) then (f + 1, 0) else (f, pos + 4 + size)
  }

  function RecordAt(p: Params, files: map<nat, seq<Byte>>, f: nat, pos: nat): Option<Message> {
    FrameAt(p.minMsgSize, p.maxMsgSize, BytesOf(files, f), pos)
  }

  function ReadOne(p: Params, q: Queue): (r: (Queue, Option<Message>)) {
    var off := if q.readFile.Some? then q.readFile.value else q.readPos;
    var rec := RecordAt(p, q.disk.files, q.readFileNum, off);
    if rec.None? then (q.(readFile := None), None)
    else
      var next := NextCursor(p, q.readFileNum, q.readPos, |rec.value|);
      (q.(nextReadFileNum := next.0, nextReadPos := next.1,
          readFile := if next.0 == q.readFileNum then Some(off + 4 + |rec.value|) else None),
       rec)
  }

  function Sync(q: Queue): Queue {
    var synced := if q.writeFile.Some?
                  then q.disk.synced[q.writeFile.value := |BytesOf(q.disk.files, q.writeFile.value)|]
                  else q.disk.synced;
    var meta := Meta(q.depth, q.readFileNum, q.readPos, q.writeFileNum, q.writePos);
    q.(disk := q.disk.(synced := synced, meta := Some(meta)), needSync := false)
  }

  function OpenWrite(q: Queue): Queue {
    if q.writeFile.Some? then q
    else q.(writeFile := Some(q.writeFileNum),
            disk := q.disk.(files := q.disk.files[q.writeFileNum := BytesOf(q.disk.files, q.writeFileNum)]))
  }

  predicate Accepts(p: Params, data: Message) {
    p.minMsgSize <= |data| <= p.maxMsgSize
  }

  /** The bytes are in the file and the write position has moved; rolling has not been considered. */
  function Written(q: Queue, data: Message): Queue
    requires q.writeFile.Some? && |data| < 0x8000_0000
  {
    var h := q.writeFile.value;
    q.(disk := q.disk.(files := q.disk.files[h := Overlay(BytesOf(q.disk.files, h), q.writePos, Frame(data))]),
       writePos := q.writePos + 4 + |data|, depth := q.depth + 1)
  }

  function WriteOne(p: Params, q: Queue, data: Message): (Queue, bool)
    requires Sane(p)
  {
    var open := OpenWrite(q);
    if !Accepts(p, data) then (open, false)
    else
      var w := Written(open, data);
      if WriterRolls(p, w.writePos)
      then (Sync(w.(writeFileNum := w.writeFileNum + 1, writePos := 0)).(writeFile := None), true)
      else (w, true)
  }

  function SkipToNextRWFile(q: Queue): Queue {
    var w := q.writeFileNum + 1;
    q.(readFile := None, writeFile := None, disk := Remove(q.disk, q.readFileNum, q.writeFileNum),
       writeFileNum := w, writePos := 0, readFileNum := w, readPos := 0,
       nextReadFileNum := w, nextReadPos := 0, depth := 0)
  }

  function DeleteAllFiles(q: Queue): Queue {
    var s := SkipToNextRWFile(q);
    s.(disk := s.disk.(meta := None))
  }

  function CheckTailCorruption(q: Queue, depth: int): Queue {
    if HasData(q) then q
    else
      var q1 := if depth != 0 then q.(depth := 0, needSync := true) else q;
      if q.readFileNum != q.writeFileNum || q.readPos != q.writePos
      then SkipToNextRWFile(q1).(needSync := true)
      else q1
  }

  /** moveForward before its final call of checkTailCorruption. */
  function Advance(q: Queue): Queue {
    var moved := q.(readFileNum := q.nextReadFileNum, readPos := q.nextReadPos, depth := q.depth - 1);
    if q.readFileNum == q.nextReadFileNum then moved
    else moved.(needSync := true, disk := Remove(q.disk, q.readFileNum, q.readFileNum))
  }

  function MoveForward(q: Queue): Queue {
    CheckTailCorruption(Advance(q), q.depth - 1)
  }

  /** checkTailCorruption on any state: with data ahead it does nothing; otherwise depth is zero and the
      cursors agree afterwards, a fresh file is started exactly when they did not, and a sync is asked for
      exactly when something was wrong. */
  lemma TailCheck(q: Queue, depth: int)
    ensures HasData(q) ==> CheckTailCorruption(q, depth) == q
    ensures var r, agree := CheckTailCorruption(q, depth), q.readFileNum == q.writeFileNum && q.readPos == q.writePos;
            !HasData(q) && depth == q.depth ==>
              && r.depth == 0 && r.readFileNum == r.writeFileNum && r.readPos == r.writePos
              && r.writeFileNum == (if agree then q.writeFileNum else q.writeFileNum + 1)
              && (!agree ==> r.readPos == 0 && forall f | q.readFileNum <= f <= q.writeFileNum :: f !in r.disk.files)
              && (r.needSync <==> q.needSync || depth != 0 || !agree)
  {
  }

  /** Renaming a file to .bad takes it out of the set of data files. */
  function HandleReadError(q: Queue): Queue {
    var q1 := if q.readFileNum == q.writeFileNum
              then q.(writeFile := None, writeFileNum := q.writeFileNum + 1, writePos := 0) else q;
    q1.(disk := Remove(q.disk, q.readFileNum, q.readFileNum),
        readFileNum := q.readFileNum + 1, readPos := 0,
        nextReadFileNum := q.readFileNum + 1, nextReadPos := 0, needSync := true)
  }

  /** The head of one iteration: sync when due. */
  function SyncIfDue(p: Params, q: Queue): Queue {
    if q.needSync || q.count == p.syncEvery then Sync(q).(count := 0) else q
  }

  datatype Iteration = Select(q: Queue) | Retry(q: Queue)

  /** One iteration of ioLoop up to its select, or up to the `continue` after a read error. */
  function Iterate(p: Params, q: Queue): Iteration {
    var q1 := SyncIfDue(p, q);
    if HasData(q1) && q1.nextReadPos == q1.readPos then
      var (q2, rec) := ReadOne(p, q1);
      if rec.None? then Retry(HandleReadError(q2)) else Select(q2.(dataRead := rec.value))
    else Select(q1)
  }

  predicate Ordered(q: Queue) {
    q.readFileNum < q.writeFileNum || (q.readFileNum == q.writeFileNum && q.readPos <= q.writePos)
  }

  function Distance(q: Queue): nat
    requires Ordered(q)
  {
    q.writeFileNum - q.readFileNum + if HasData(q) then 1 else 0
  }

  /** Every retry brings the read cursor closer to the write cursor and asks for a sync. */
  lemma RetryMoves(p: Params, q: Queue)
    requires Ordered(q) && Iterate(p, q).Retry?
    ensures Ordered(Iterate(p, q).q) && Distance(Iterate(p, q).q) < Distance(q) && Iterate(p, q).q.needSync
  {
  }

  /** Iterate until the loop blocks in select. */
  function ToSelect(p: Params, q: Queue): Queue
    requires Ordered(q)
    decreases Distance(q)
  {
    match Iterate(p, q)
    case Select(q') => q'
    case Retry(q') => ToSelect(p, q')
  }

  /** How many read errors are handled on the way to select. */
  function ReadErrors(p: Params, q: Queue): nat
    requires Ordered(q)
    decreases Distance(q)
  {
    match Iterate(p, q)
    case Select(_) => 0
    case Retry(q') => 1 + ReadErrors(p, q')
  }

  /** New: retrieveMetaData over a zeroed struct. */
  function New(d: Disk): Queue {
    var m := if d.meta.Some? then d.meta.value else Meta(0, 0, 0, 0, 0);
    Queue(m.readFileNum, m.readPos, m.writeFileNum, m.writePos, m.depth,
          m.readFileNum, m.readPos, false, None, None, [], 0, d)
  }

  /** Close: exit drops both handles, and only then sync runs, so it fsyncs no data file. */
  function Close(q: Queue): Disk {
    Sync(q.(readFile := None, writeFile := None)).disk
  }

  /** What select can pick. ReadTick is the second ticker of dqueue, whose case is empty; Restart is
      Close followed by New with the same parameters. */
  datatype Event = Put(data: Message) | Deliver | EmptyAll | Tick | ReadTick | Restart

  predicate Selectable(q: Queue, e: Event) {
    match e
    case Deliver => HasData(q)
    case Put(data) => |data| < 0x8000_0000
    case _ => true
  }

  /** The body of the chosen select case. */
  function Handle(p: Params, q: Queue, e: Event): Queue
    requires Sane(p)
  {
    match e
    case Deliver => MoveForward(q.(count := q.count + 1))
    case EmptyAll => DeleteAllFiles(q).(count := 0)
    case Put(data) => WriteOne(p, q.(count := q.count + 1), data).0
    case Tick => if q.count == 0 then q else q.(needSync := true)
    case ReadTick => q
    case Restart => New(Close(q))
  }

  /** What the client of an event sees, with Depth() as read once the loop is back in select. */
  datatype Answer = Delivered(data: Message) | PutResult(ok: bool) | Silent

  function Respond(p: Params, q: Queue, e: Event): Answer
    requires Sane(p)
  {
    match e
    case Deliver => Delivered(q.dataRead)
    case Put(data) => PutResult(WriteOne(p, q.(count := q.count + 1), data).1)
    case _ => Silent
  }

  /** One pass of the loop from select to select; None when select could not have picked the event. */
  function Step(p: Params, q: Queue, e: Event): Option<Queue>
    requires Sane(p)
  {
    if Selectable(q, e) && Ordered(Handle(p, q, e)) then Some(ToSelect(p, Handle(p, q, e))) else None
  }

  /** The state in which the loop blocks after a list of events, starting from an empty directory. */
  function Run(p: Params, evs: seq<Event>): Option<Queue>
    requires Sane(p)
  {
    if evs == [] then Some(ToSelect(p, New(EMPTY_DISK)))
    else
      var before := Run(p, evs[..|evs| - 1]);
      if before.None? then None else Step(p, before.value, evs[|evs| - 1])
  }

  const EMPTY_DISK := Disk(map[], map[], None)
}
