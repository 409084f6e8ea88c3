/** diskQueue as an object: the methods of the struct, each proved against its function in DiskModel,
    and ioLoop itself, proved against the plain sequence of DiskFifo. */
module DiskIo {
  import opened Options
  import opened DiskFrames
  import M = DiskModel
  import Fifo = DiskFifo

  /** What a plain sequence answers to a list of events. */
  function SpecAnswers(p: M.Params, evs: seq<M.Event>): (r: seq<M.Answer>)
    requires Fifo.SpecRun(p, evs).Some?
    ensures |r| == |evs|
  {
    if evs == [] then []
    else
      var n := |evs| - 1;
      SpecAnswers(p, evs[..n]) + [Fifo.SpecRespond(p, Fifo.SpecRun(p, evs[..n]).value, evs[n])]
  }

  lemma {:induction false} SpecRunPrefix(p: M.Params, evs: seq<M.Event>, i: nat)
    requires Fifo.SpecRun(p, evs).Some? && i <= |evs|
    ensures Fifo.SpecRun(p, evs[..i]).Some?
    decreases |evs| - i
  {
    if i < |evs| {
      SpecRunPrefix(p, evs, i + 1);
      assert evs[..i + 1][..i] == evs[..i];
    } else {
      assert evs[..i] == evs;
    }
  }

  lemma NoAnswersYet(p: M.Params, evs: seq<M.Event>)
    requires M.Sane(p)
    ensures Fifo.SpecRun(p, evs[..0]).Some? && SpecAnswers(p, evs[..0]) == []
    ensures M.Run(p, evs[..0]) == Some(M.ToSelect(p, M.New(M.EMPTY_DISK)))
  {
  }

  /** In select after i events, the next event is handled and answered as the plain sequence says. */
  lemma OneMoreAnswer(p: M.Params, evs: seq<M.Event>, i: nat, q: M.Queue)
    requires M.Sane(p) && Fifo.SpecRun(p, evs).Some? && i < |evs| && Fifo.SpecRun(p, evs[..i]).Some?
    requires M.Run(p, evs[..i]) == Some(q)
    ensures var h := M.Handle(p, q, evs[i]);
            M.Ordered(h) && M.Run(p, evs[..i + 1]) == Some(M.ToSelect(p, h))
    ensures Fifo.SpecRun(p, evs[..i + 1]).Some?
    ensures SpecAnswers(p, evs[..i + 1]) == SpecAnswers(p, evs[..i]) + [M.Respond(p, q, evs[i])]
  {
    hide M.Handle, M.Respond, M.ToSelect, Fifo.AtSelect, Fifo.SpecRespond, Fifo.SpecStep;
    assert evs[..i + 1][..i] == evs[..i];
    SpecRunPrefix(p, evs, i + 1);
    Fifo.AnswersRefine(p, evs[..i], evs[i]);
  }

  lemma RemoveEmptyRange(d: M.Disk, lo: int, hi: int)
    requires hi < lo
    ensures M.Remove(d, lo, hi) == d
  {
    assert M.Remove(d, lo, hi).files == d.files && M.Remove(d, lo, hi).synced == d.synced;
  }

  lemma RemoveOneMore(d: M.Disk, lo: nat, i: nat)
    requires lo <= i
    ensures M.Remove(M.Remove(d, lo, i - 1), i, i) == M.Remove(d, lo, i)
  {
    var a, b := M.Remove(M.Remove(d, lo, i - 1), i, i), M.Remove(d, lo, i);
    assert a.files == b.files && a.synced == b.synced;
  }

  class DiskQueue {
    const p: M.Params
    var readPos: nat
    var writePos: nat
    var readFileNum: nat
    var writeFileNum: nat
    var depth: int
    var needSync: bool
    var nextReadPos: nat
    var nextReadFileNum: nat
    var readFile: Option<nat>
    var writeFile: Option<nat>
    var disk: M.Disk
    // The two locals of ioLoop that outlive an iteration.
    var dataRead: Message
    var count: nat

    function View(): M.Queue
      reads this
    {
      M.Queue(readFileNum, readPos, writeFileNum, writePos, depth, nextReadFileNum, nextReadPos, needSync,
              readFile, writeFile, dataRead, count, disk)
    }

    constructor (p: M.Params, disk: M.Disk)
      ensures this.p == p && View() == M.New(disk)
    {
      this.p := p;
      this.disk := disk;
      readPos, writePos, readFileNum, writeFileNum, depth := 0, 0, 0, 0, 0;
      nextReadPos, nextReadFileNum, needSync := 0, 0, false;
      readFile, writeFile, dataRead, count := None, None, [], 0;
      new;
      RetrieveMetaData();
    }

    method RetrieveMetaData()
      modifies this
      ensures View() ==
              if old(disk.meta).None? then old(View())
              else var m := old(disk.meta).value;
                old(View()).(depth := m.depth, readFileNum := m.readFileNum, readPos := m.readPos,
                             writeFileNum := m.writeFileNum, writePos := m.writePos,
                             nextReadFileNum := m.readFileNum, nextReadPos := m.readPos)
    {
      if disk.meta.None? {
        return;
      }
      var m := disk.meta.value;
      depth := m.depth;
      readFileNum, readPos := m.readFileNum, m.readPos;
      writeFileNum, writePos := m.writeFileNum, m.writePos;
      nextReadFileNum := readFileNum;
      nextReadPos := readPos;
    }

    /** The removal loop of skipToNextRWFile. */
    method RemoveFiles(lo: nat, hi: nat)
      modifies this`disk
      ensures disk == M.Remove(old(disk), lo, hi)
    {
      hide M.Remove;
      RemoveEmptyRange(disk, lo, lo - 1);
      var i := lo;
      while i <= hi
        invariant lo <= i && (i <= hi + 1 || i == lo)
        invariant disk == M.Remove(old(disk), lo, i - 1)
      {
        RemoveOneMore(old(disk), lo, i);
        RemoveFile(i);
        i := i + 1;
      }
      if hi < lo {
        RemoveEmptyRange(old(disk), lo, hi);
      }
    }

    method SkipToNextRWFile()
      modifies this
      ensures View() == M.SkipToNextRWFile(old(View()))
    {
      hide M.Remove;
      readFile := None;
      writeFile := None;
      RemoveFiles(readFileNum, writeFileNum);
      StartFreshFile();
    }

    /** The second half of skipToNextRWFile: all cursors go to the start of the next file. */
    method StartFreshFile()
      modifies this
      ensures var w := old(writeFileNum) + 1;
              View() == old(View()).(writeFileNum := w, writePos := 0, readFileNum := w, readPos := 0,
                                     nextReadFileNum := w, nextReadPos := 0, depth := 0)
    {
      writeFileNum := writeFileNum + 1;
      writePos := 0;
      readFileNum := writeFileNum;
      readPos := 0;
      nextReadFileNum := writeFileNum;
      nextReadPos := 0;
      depth := 0;
    }

    /** os.Remove of a data file; a missing file is not an error. */
    method RemoveFile(f: nat)
      modifies this`disk
      ensures disk == M.Remove(old(disk), f, f)
    {
      disk := disk.(files := map g | g in disk.files && g != f :: disk.files[g],
                    synced := map g | g in disk.synced && g != f :: disk.synced[g]);
    }

    method DeleteAllFiles()
      modifies this
      ensures View() == M.DeleteAllFiles(old(View()))
    {
      SkipToNextRWFile();
      disk := disk.(meta := None);
    }

    method ReadOne() returns (r: Option<Message>)
      modifies this
      ensures View() == M.ReadOne(p, old(View())).0
      ensures r == M.ReadOne(p, old(View())).1
    {
      if readFile.None? {
        readFile := Some(readPos);
      }
      r := FrameAt(p.minMsgSize, p.maxMsgSize, M.BytesOf(disk.files, readFileNum), readFile.value);
      if r.None? {
        readFile := None;
        return;
      }
      var totalBytes := 4 + |r.value|;
      readFile := Some(readFile.value + totalBytes);
      nextReadPos := readPos + totalBytes;
      nextReadFileNum := readFileNum;
      if nextReadPos > p.maxBytesPerFile {
        readFile := None;
        nextReadFileNum := nextReadFileNum + 1;
        nextReadPos := 0;
      }
    }

    /** The first statement of writeOne. */
    method OpenWriteFile()
      modifies this`writeFile, this`disk
      ensures View() == M.OpenWrite(old(View()))
    {
      if writeFile.None? {
        writeFile := Some(writeFileNum);
        disk := disk.(files := disk.files[writeFileNum := M.BytesOf(disk.files, writeFileNum)]);
      }
    }

    /** The record goes into the open file and the write position moves behind it. */
    method AppendRecord(data: Message)
      requires writeFile.Some? && |data| < 0x8000_0000
      modifies this
      ensures View() == M.Written(old(View()), data)
    {
      hide Overlay, Frame, M.BytesOf;
      var h := writeFile.value;
      disk := disk.(files := disk.files[h := Overlay(M.BytesOf(disk.files, h), writePos, Frame(data))]);
      writePos := writePos + 4 + |data|;
      depth := depth + 1;
    }

    method WriteOne(data: Message) returns (ok: bool)
      requires M.Sane(p)
      modifies this
      ensures View() == M.WriteOne(p, old(View()), data).0
      ensures ok == M.WriteOne(p, old(View()), data).1
    {
      hide M.Written, M.Sync;
      OpenWriteFile();
      if |data| < p.minMsgSize || |data| > p.maxMsgSize {
        return false;
      }
      AppendRecord(data);
      if M.WriterRolls(p, writePos) {
        writeFileNum := writeFileNum + 1;
        writePos := 0;
        Sync();
        writeFile := None;
      }
      return true;
    }

    method Sync()
      modifies this
      ensures View() == M.Sync(old(View()))
    {
      if writeFile.Some? {
        disk := disk.(synced := disk.synced[writeFile.value := |M.BytesOf(disk.files, writeFile.value)|]);
      }
      disk := disk.(meta := Some(M.Meta(depth, readFileNum, readPos, writeFileNum, writePos)));
      needSync := false;
    }

    method CheckTailCorruption(depth: int)
      modifies this
      ensures View() == M.CheckTailCorruption(old(View()), depth)
    {
      if readFileNum < writeFileNum || readPos < writePos {
        return;
      }
      if depth != 0 {
        this.depth := 0;
        needSync := true;
      }
      if readFileNum != writeFileNum || readPos != writePos {
        SkipToNextRWFile();
        needSync := true;
      }
    }

    method MoveForward()
      modifies this
      ensures View() == M.MoveForward(old(View()))
    {
      hide M.Remove, M.CheckTailCorruption;
      var oldReadFileNum := readFileNum;
      readFileNum := nextReadFileNum;
      readPos := nextReadPos;
      depth := depth - 1;
      if oldReadFileNum != nextReadFileNum {
        needSync := true;
        RemoveFile(oldReadFileNum);
      }
      CheckTailCorruption(depth);
    }

    method HandleReadError()
      modifies this
      ensures View() == M.HandleReadError(old(View()))
    {
      hide M.Remove;
      if readFileNum == writeFileNum {
        writeFile := None;
        writeFileNum := writeFileNum + 1;
        writePos := 0;
      }
      RemoveFile(readFileNum);
      readFileNum := readFileNum + 1;
      readPos := 0;
      nextReadFileNum := readFileNum;
      nextReadPos := 0;
      needSync := true;
    }

    /** Close, then New over the directory it leaves. */
    method CloseAndReopen()
      modifies this
      ensures View() == M.New(M.Close(old(View())))
    {
      readFile := None;
      writeFile := None;
      Sync();
      readPos, writePos, readFileNum, writeFileNum, depth := 0, 0, 0, 0, 0;
      nextReadPos, nextReadFileNum, needSync := 0, 0, false;
      dataRead, count := [], 0;
      RetrieveMetaData();
    }

    /** The head of one iteration of ioLoop; false stands for its `continue` after a read error. */
    method PrepareSelect() returns (blocked: bool)
      modifies this
      ensures M.Iterate(p, old(View())) == if blocked then M.Select(View()) else M.Retry(View())
    {
      hide M.Sync, M.ReadOne, M.HandleReadError;
      if count == p.syncEvery {
        needSync := true;
      }
      if needSync {
        SyncIgnoresNeed(View(), old(View()));
        Sync();
        count := 0;
      }
      assert View() == M.SyncIfDue(p, old(View()));
      if readFileNum < writeFileNum || readPos < writePos {
        if nextReadPos == readPos {
          var r := ReadOne();
          if r.None? {
            HandleReadError();
            return false;
          }
          dataRead := r.value;
        }
      }
      return true;
    }

    static lemma SyncIgnoresNeed(a: M.Queue, b: M.Queue)
      requires a == b.(needSync := a.needSync)
      ensures M.Sync(a) == M.Sync(b)
    {
    }

    /** The select case for event e, with what its client receives. */
    method HandleEvent(e: M.Event) returns (answer: M.Answer)
      requires M.Sane(p)
      modifies this
      ensures View() == M.Handle(p, old(View()), e) && answer == M.Respond(p, old(View()), e)
    {
      hide M.MoveForward, M.DeleteAllFiles, M.WriteOne, M.New, M.Close;
      answer := M.Silent;
      match e {
        case Deliver =>
          answer := M.Delivered(dataRead);
          count := count + 1;
          MoveForward();
        case EmptyAll =>
          DeleteAllFiles();
          count := 0;
        case Put(data) =>
          count := count + 1;
          var ok := WriteOne(data);
          answer := M.PutResult(ok);
        case Tick =>
          if count != 0 {
            needSync := true;
          }
        case ReadTick =>
        case Restart =>
          CloseAndReopen();
      }
    }

    /** ioLoop from New until it blocks after `evs`, the events its select picks in turn. */
    method IoLoop(evs: seq<M.Event>) returns (answers: seq<M.Answer>)
      requires M.Sane(p) && View() == M.New(M.EMPTY_DISK) && Fifo.SpecRun(p, evs).Some?
      modifies this
      ensures answers == SpecAnswers(p, evs)
      ensures M.Run(p, evs) == Some(View())
      ensures Fifo.AtSelect(p, View(), Fifo.SpecRun(p, evs).value)
    {
      hide M.Iterate, M.Handle, M.Respond, M.Run, Fifo.AtSelect, Fifo.SpecRun, SpecAnswers;
      NoAnswersYet(p, evs);
      answers := [];
      var i := 0;
      while true
        invariant i <= |evs|
        invariant M.Ordered(View())
        invariant Fifo.SpecRun(p, evs[..i]).Some? && M.Run(p, evs[..i]) == Some(M.ToSelect(p, View()))
        invariant answers == SpecAnswers(p, evs[..i])
        decreases |evs| - i, M.Distance(View())
      {
        ghost var top := View();
        var blocked := PrepareSelect();
        if !blocked {
          M.RetryMoves(p, top);
          continue;
        }
        if i == |evs| {
          assert evs[..i] == evs;
          Fifo.RunRefines(p, evs);
          return;
        }
        OneMoreAnswer(p, evs, i, View());
        var answer := HandleEvent(evs[i]);
        answers := answers + [answer];
        i := i + 1;
      }
    }
  }
}
