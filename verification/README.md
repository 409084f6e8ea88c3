# Verified model of resjob

A Dafny model of the parts of resjob in which a fast or concurrent implementation has to agree with
something simple, and the proofs that it does.

- **Disk queue** (`diskqueue`, `dqueue`). `DiskFrames` is the record format, `DiskModel` the struct and
  every branch of `ioLoop` as functions on a value that holds all its fields and the directory, `DiskIo`
  the same struct as an object whose methods are proved against those functions. `DiskFifo` proves that
  every run from an empty directory is a run of a plain sequence of messages, restarts included;
  `DiskFiles` which files there are and how long they get; `DiskCrash` what a restart finds after a crash;
  `DiskDamage` what damaged files can and cannot do;
  `DiskPairing` who gets which answer and who can be left waiting. The two packages are one model with
  one parameter, `rollWhenFull`, for their only difference.
- **Cron**. `Calendar` is the proleptic Gregorian calendar in UTC (leap years as in Appendix C of
  RFC 3339). `CronBits`, `CronText` and `CronParser` compile an expression to bit sets, `CronNext` is the
  search over calendar fields, `CronRun` the event loop; `CronMeaning` spells out what texts mean as calendar
  times, from digits and names up; `CronLink` joins them, from the text of a
  specification to what the loop starts. `CronDelay` is the schedule of `@every`, `CronGap` a text that the
  loop never starts.
- **Worker pools**. `WorkerPool` and `WorkPool` are state machines whose steps are the sections under a
  lock, the sends and the receives, so that a list of steps is one interleaving. `WorkerHistory` tells from
  the steps what becomes of a call and of a worker. `IdleClean` is the two
  in-place clean-ups of a ready list.
- **Queues under the work pool**. `RingMath` and `RingQueue` are the ring buffer, `MyQueue` the closable
  queue around it.

`Arithmetic` and `Options` hold what several of these share.

How to read the disk part: `Layout` and `AtSelect` relate a state of `ioLoop` to a sequence of messages;
`Chain` says that reading from one cursor to another yields exactly that sequence. `Run` and `SpecRun`
give the state after a list of events, or nothing when some event could not have been selected.

## Findings

- `Close` of the disk queue persists metadata but fsyncs no data file, because `exit` drops the write
  handle before `sync` looks at it. A clean restart without a power failure is always exact.
  `CloseIsDurableIff` gives, for every run, the exact condition under which a power failure after `Close`
  is harmless, `CloseCanLoseAMessage` a family of runs in which it is not. The gap outlives the restart:
  `New` does not open the write file, so a later sync repeats the metadata without its bytes being on
  stable storage until a write has reopened the file. `CrashRecoversIff` gives the exact condition for a
  crash after any run, `ReopenedCanLoseAMessage` a family of runs that fail it.
- In `dqueue` the read-error branch is part of normal operation: it is how the reader leaves a file filled
  to exactly `maxBytesPerFile` (`HandledErrors`). In `diskqueue` it is never taken.
- The comment above `getRange` describes less than the code accepts: `*-` and `?-` may be followed by any
  text, which is ignored, and a lone value may carry a step. The model follows the code.
- `Next` gives up at the end of the fifth calendar year after the year of the next second, not after five
  years as its comment says, and an entry whose `Next` is the zero time is never computed again in that run
  (`RestExtends`). So a text with a longer gap is dropped for good: started in any second of 2021 to 2026,
  an entry with `0 0 0 29 2 */3` never runs, although it means 2032-02-29 (`LeapSundayIsMissed`). A second
  that has come is missed exactly when it is later than the last computation of `Next`, and then only because
  `Next` gave up there (`MissedIffGivenUp`). No continuation of a run misses anything if and only if, from
  the last computation on, the text means a second within the year limit whenever it means a later one at
  all (`TextNeverMissesIff`).
- The comment in `run` says "less than now"; the code, and the model, fire at equality as well.
- `release` reads the clock before it takes the lock, so stamps need not follow the order of appends and a
  ready list need not be sorted. `CutIsPrefixIff` says exactly when the binary search of `zero/pool.go` then
  still cuts where the linear scan does; when it does not, it removes fresh workers as well
  (`UnsortedCanRemoveFresh`). A sorted list is always cut correctly.

## Model

| member | source | states |
|---|---|---|
| DiskFrames.FrameRoundTrip | diskqueue/diskqueue.go:309-328 | a record written at the end of a file is the record read back there |
| DiskFrames.Header | diskqueue/diskqueue.go:394-397 | the length is written most significant byte first |
| DiskFrames.Size | diskqueue/diskqueue.go:309-314 | the length is read as a signed 32-bit number, negative exactly when the top bit is set |
| DiskFrames.FrameAtPrefix | diskqueue/diskqueue.go:309-328 | bytes outside a record do not change what is read |
| DiskFrames.SizeOfHeader | diskqueue/diskqueue.go:394-397 | the big-endian length survives encoding and decoding |
| DiskFrames.Overlay | diskqueue/diskqueue.go:366-411 | a write places exactly its bytes at its offset, keeps every other byte of the file, fills a gap with zeroes and lengthens a shorter file to exactly its end |
| DiskModel.RetryMoves | diskqueue/diskqueue.go:602-642 | every retry after a read error brings the read cursor closer to the write cursor and schedules a sync |
| DiskModel.TailCheck | diskqueue/diskqueue.go:534-577 | on any state: with data ahead nothing happens; otherwise depth is zero and the cursors agree, a fresh file is started exactly when they did not, and a sync is asked for exactly when something was wrong |
| DiskFifo.ChainUnique | diskqueue/diskqueue.go:283-358 | files and cursors determine the queue: two message sequences that fit are equal |
| DiskFifo.ChainFrame | diskqueue/diskqueue.go:283-358 | the queue depends only on the files from the read cursor up to the write cursor |
| DiskFifo.ChainAppend | diskqueue/diskqueue.go:404-434 | a record at the write cursor appends its message, whichever of writer and reader rolls there |
| DiskFifo.ReadOneKeeps | diskqueue/diskqueue.go:283-358 | unless the file ends under the cursor, readOne yields the head of the queue, whatever the handle state, and keeps the handle open exactly while the next record is in the same file |
| DiskFifo.ReadErrorKeeps | dqueue/diskqueue.go:572-606 | at the end of a file the writer has left, the read error skips the file and loses nothing |
| DiskFifo.IterateKeeps | diskqueue/diskqueue.go:660-690 | one iteration reaches select with the head read ahead, or skips an exactly-full file; no other error occurs |
| DiskFifo.ToSelectKeeps | diskqueue/diskqueue.go:660-690 | the loop reaches select in a state that still denotes the same queue |
| DiskFifo.DeliverKeeps | diskqueue/diskqueue.go:579-599 | moveForward drops exactly the head, across file rolls and deletions, and checkTailCorruption changes nothing |
| DiskFifo.PutKeeps | diskqueue/diskqueue.go:362-437 | writeOne appends exactly when the size is in range and answers accordingly |
| DiskFifo.EmptyKeeps | diskqueue/diskqueue.go:233-279 | Empty leaves a well-formed empty queue |
| DiskFifo.RestartKeeps | diskqueue/diskqueue.go:170-213 | Close then New denotes the same queue, a message read ahead but not delivered included |
| DiskFifo.HandleKeeps | diskqueue/diskqueue.go:692-719 | every select case refines the operation of the plain sequence and gives its answer |
| DiskFifo.StepKeeps | diskqueue/diskqueue.go:660-719 | one pass from select to select is possible exactly when the plain sequence allows the event, and refines it |
| DiskFifo.RunRefines | diskqueue/diskqueue.go:652-720 | FIFO refinement over all runs from an empty directory, both packages, any number of rolls and restarts |
| DiskFifo.AnswersRefine | diskqueue/diskqueue.go:652-720 | after every run each event gets the plain sequence's answer, the head byte for byte, and depth is its length; a Put is accepted, and appended, exactly if its length is between the two bounds |
| DiskFifo.FileEndIsExactlyFull | dqueue/diskqueue.go:398-416 | only a dqueue file filled to exactly maxBytesPerFile ends under the read cursor |
| DiskFifo.ReadErrorsAt | diskqueue/diskqueue.go:674-686 | read errors on the way to select: one at the end of a left file, otherwise none |
| DiskFifo.HandledErrors | diskqueue/diskqueue.go:534-642 | over all runs: no read error in diskqueue, at most one per event in dqueue and only at a full file, never a tail reset |
| DiskFiles.AppendDirectory | diskqueue/diskqueue.go:413-434 | an accepted record goes to the write file, which is left exactly if that fills it |
| DiskFiles.PutDirectory | diskqueue/diskqueue.go:404-434 | a write keeps the directory as described, the file it leaves being full and the one it starts not |
| DiskFiles.DeliverDirectory | diskqueue/diskqueue.go:579-599 | a delivery that leaves a file removes it and no other |
| DiskFiles.RunDirectory | diskqueue/diskqueue.go:247-279 | over all runs the directory holds exactly the files from the read file to the write file; each file the writer has left is over the limit (or at it, where dqueue rolls) by less than one record, the open one is not |
| DiskFiles.EmptyLeavesNothing | diskqueue/diskqueue.go:233-279 | after any run Empty leaves no data file and both cursors at the start of the next one |
| DiskCrash.SyncDurable | diskqueue/diskqueue.go:440-458 | after sync the metadata denotes the queue and every byte it refers to is durable |
| DiskCrash.ToSelectDurable | diskqueue/diskqueue.go:660-690 | on the way to select the persisted queue is unchanged or becomes the current one, and a due sync has happened |
| DiskCrash.DeliverDurable | diskqueue/diskqueue.go:579-599 | a delivery that removes a file schedules the sync; any other leaves the persisted queue valid |
| DiskCrash.PutDurable | diskqueue/diskqueue.go:404-434 | a write lies behind everything persisted, or, when it rolls, is persisted together with what precedes it |
| DiskCrash.StepDurable | diskqueue/diskqueue.go:660-719 | one pass from select to select, Close and New included: the persisted queue is the old one with the operation counted, or the current one; after a tick with something to persist, and after Empty, it is the current one |
| DiskCrash.RestartDurable | diskqueue/diskqueue.go:170-213 | Close and New leave metadata that denotes the queue as it is, whether or not its bytes are durable |
| DiskCrash.RunDurable | diskqueue/diskqueue.go:660-719 | over all runs, restarts included and for any syncEvery, the metadata denotes the queue after a recent prefix of the run: it lacks fewer than syncEvery reads and writes, none of them before a tick of the sync timer, and no Empty; without a restart what it refers to is durable |
| DiskCrash.ImageRecovers | diskqueue/diskqueue.go:462-486 | if the tail is fsynced, New reads back the persisted queue whatever a crash leaves of the other bytes |
| DiskCrash.ImageRecoversIff | diskqueue/diskqueue.go:462-486 | every crash image gives back the persisted queue if and only if the tail its metadata refers to is fsynced or nothing is left to read |
| DiskCrash.CrashRecoversIff | diskqueue/diskqueue.go:440-521 | over all runs, restarts included: the queue after a recent prefix of the run is recovered by every crash in select if and only if that condition holds |
| DiskCrash.CrashRecovers | diskqueue/diskqueue.go:462-521 | without a restart the condition always holds: a crash in select recovers the queue after a recent prefix of the run, with its depth |
| DiskCrash.TickPersists | diskqueue/diskqueue.go:709-715 | once a tick of the sync timer has been handled the queue itself is persisted, whatever syncEvery is; without a restart every crash then recovers exactly it |
| DiskCrash.IdleTick | diskqueue/diskqueue.go:709-715 | a tick with nothing to persist, and any tick of the other timer, leaves the directory as it is |
| DiskCrash.ChainNeedsBytes | diskqueue/diskqueue.go:283-358 | a queue that is not empty at the write cursor needs the write file up to the write position |
| DiskCrash.CloseIsDurableIff | diskqueue/diskqueue.go:170-213 | after any run, restarts included, a power failure after Close is harmless if and only if the tail was fsynced already or nothing was left to read |
| DiskCrash.CloseCanLoseAMessage | diskqueue/diskqueue.go:170-213 | any first message closed before a sync is due can be lost |
| DiskCrash.ReopenedCanLoseAMessage | diskqueue/diskqueue.go:110-139 | closed and reopened, the same message can still be lost by a crash while the new loop waits in select |
| DiskDamage.ReadErrorsBounded | diskqueue/diskqueue.go:660-686 | at most writeFileNum - readFileNum + 1 consecutive read errors, whatever the files contain |
| DiskDamage.ToSelectInside | diskqueue/diskqueue.go:660-690 | over arbitrary file contents the loop reaches select with the cursors in order |
| DiskDamage.DeliverInside | diskqueue/diskqueue.go:534-599 | a delivery over arbitrary contents keeps the cursors in order |
| DiskDamage.TailResetsDepth | diskqueue/diskqueue.go:534-577 | a delivery that reaches the write cursor leaves depth zero, however wrong it had become |
| DiskDamage.PutInside | diskqueue/diskqueue.go:362-437 | a write over a damaged file keeps the cursors in order |
| DiskDamage.ActRunInside | diskqueue/diskqueue.go:283-358 | over all runs with damage the read cursor never passes the write cursor, and every file the reader has left is gone |
| DiskDamage.IntactAppend | diskqueue/diskqueue.go:404-434 | a record appended to a file the reader will not leave early is one more message of that file |
| DiskDamage.PutTracked | diskqueue/diskqueue.go:362-437 | a write adds its message to what is left to deliver from the write file and changes nothing for any other file |
| DiskDamage.DeliverTracked | diskqueue/diskqueue.go:579-599 | a delivery from a file takes the next of its undelivered messages, the last one when the reader leaves it |
| DiskDamage.EmptyTracked | diskqueue/diskqueue.go:233-279 | Empty changes nothing for a file the reader has passed or the writer has not reached |
| DiskDamage.DeliveredWhole | diskqueue/diskqueue.go:602-642 | from any undamaged file from the read file on, what it holds and what is accepted into it later is delivered in order: a prefix while the reader is on it, all of it afterwards unless an Empty came while it was between the cursors |
| DiskDamage.FreshFile | diskqueue/diskqueue.go:416-434 | a file the writer has not reached starts empty in any damaged state, so it delivers exactly what is accepted into it |
| DiskDamage.LeftForGood | diskqueue/diskqueue.go:416-434 | over all runs with damage nothing more is accepted into a file the writer has left |
| DiskDamage.QueuedFileSurvives | diskqueue/diskqueue.go:602-642 | after any run every file from the read file on holds a stretch of the queue, and while it is undamaged exactly that stretch and what it later accepts is delivered from it, up to an Empty that removes it |
| DiskPairing.StepKeepsInv | diskqueue/diskqueue.go:154-230 | every step keeps: only the caller being served awaits an answer, and the write lock keeps callers out |
| DiskPairing.AnswersArePaired | diskqueue/diskqueue.go:154-230 | over all interleavings each caller gets its own answer and none is blocked once ioLoop has returned |
| DiskPairing.RunTold | diskqueue/diskqueue.go:154-230 | over all interleavings what a caller is told is decided by whether exit had set its flag when it took the read lock |
| DiskPairing.OutcomeIff | diskqueue/diskqueue.go:154-230 | over all interleavings a call returns the exiting error if and only if it took the read lock after exit took its lock, and otherwise the result of its own request |
| DiskPairing.ReaderMoves | diskqueue/diskqueue.go:154-168 | while a caller holds the read lock, it or ioLoop can take a step |
| DiskPairing.ExitMoves | diskqueue/diskqueue.go:184-213 | whatever exit is blocked in, exit, ioLoop or a caller can take a step |
| DiskPairing.NoDeadlock | diskqueue/diskqueue.go:154-230 | over all interleavings, while a call or exit is unfinished some caller, exit or ioLoop can take a step |
| DiskPairing.InternalMoves | diskqueue/diskqueue.go:154-230 | every step that is not a new call is one less to come |
| DiskPairing.CallsRecorded | diskqueue/diskqueue.go:154-168 | a caller stays registered with the kind of request it was made for |
| DiskPairing.AnyoneMayCall | diskqueue/diskqueue.go:154-184 | Put and Empty can be called at any time, exit as long as it has not been |
| DiskPairing.EveryCallReturns | diskqueue/diskqueue.go:154-230 | over all interleavings, when no step is left but new calls, every Put and Empty has returned, and exit has if it was called |
| DiskIo.DiskQueue.constructor | diskqueue/diskqueue.go:110-139 | New starts from the persisted metadata, or from zeroes |
| DiskIo.DiskQueue.RetrieveMetaData | diskqueue/diskqueue.go:462-486 | the metadata is loaded into the cursors and the next cursors, nothing else changes |
| DiskIo.DiskQueue.RemoveFiles | diskqueue/diskqueue.go:260-267 | the loop removes exactly the files of the range |
| DiskIo.DiskQueue.SkipToNextRWFile | diskqueue/diskqueue.go:247-279 | the whole new state of skipping to a fresh file |
| DiskIo.DiskQueue.StartFreshFile | diskqueue/diskqueue.go:269-276 | all cursors at the start of the next file, depth zero, nothing else changed |
| DiskIo.DiskQueue.DeleteAllFiles | diskqueue/diskqueue.go:233-244 | the whole new state of emptying |
| DiskIo.DiskQueue.ReadOne | diskqueue/diskqueue.go:283-358 | the whole new state and result of a read |
| DiskIo.DiskQueue.OpenWriteFile | diskqueue/diskqueue.go:365-384 | the write file is open and exists; its bytes are as before |
| DiskIo.DiskQueue.AppendRecord | diskqueue/diskqueue.go:394-416 | the record is in the open file, the write position behind it, depth one more |
| DiskIo.DiskQueue.WriteOne | diskqueue/diskqueue.go:362-437 | the whole new state and result of a write |
| DiskIo.DiskQueue.Sync | diskqueue/diskqueue.go:440-458 | the whole new state of a sync |
| DiskIo.DiskQueue.CheckTailCorruption | diskqueue/diskqueue.go:534-577 | the whole new state of the tail check |
| DiskIo.DiskQueue.MoveForward | diskqueue/diskqueue.go:579-599 | the whole new state of a delivery |
| DiskIo.DiskQueue.HandleReadError | diskqueue/diskqueue.go:602-642 | the whole new state after a read error |
| DiskIo.DiskQueue.CloseAndReopen | diskqueue/diskqueue.go:170-213 | the whole new state of Close followed by New |
| DiskIo.DiskQueue.PrepareSelect | diskqueue/diskqueue.go:660-690 | the head of an iteration, with its `continue` |
| DiskIo.DiskQueue.HandleEvent | diskqueue/diskqueue.go:692-719 | the select cases and their answers |
| DiskIo.DiskQueue.IoLoop | diskqueue/diskqueue.go:652-720 | for every event list of the plain sequence the loop gives exactly its answers and terminates in select |
| Calendar.AddDayElapses | core/cron/spec.go:101-101 | the next calendar day is 86400 seconds later, over month ends, leap days and year ends |
| Calendar.AddSecondElapses | core/cron/spec.go:137-137 | adding a second with carries into every field is one elapsed second |
| Calendar.BeforeIffUnix | core/cron/spec.go:53-55 | comparing fields is comparing elapsed seconds, and equal seconds are equal times |
| Calendar.EverySecondHasATime | core/cron/spec.go:53-55 | every elapsed second is a calendar time, so nothing is missed by searching calendar times |
| Calendar.Epoch | core/cron/spec.go:53-55 | second zero is the start of 1970, a Thursday |
| Calendar.LeapDayIff | core/cron/spec.go:101-101 | there is a 29 February in the years divisible by 4, except centuries not divisible by 400 |
| Calendar.MonthsBegin | core/cron/spec.go:86-92 | the day of the year on which each month begins |
| CronBits.BitOr | core/cron/parser.go:199-199 | a bit of a union is a bit of either |
| CronBits.BitMask | core/cron/parser.go:306-306 | `1 << i` has exactly bit i |
| CronBits.BitShlOnes | core/cron/parser.go:301-301 | all ones shifted by k has exactly the bits from k on |
| CronBits.GetBits | core/cron/parser.go:296-309 | shift form and loop form both set exactly min, min+step, ... up to max |
| CronText.JoinSplit | core/cron/parser.go:210-211 | joining the pieces of a split gives back the text |
| CronText.SplitJoin | core/cron/parser.go:210-211 | splitting joined pieces gives back the pieces |
| CronParser.RangeOfReading | core/cron/parser.go:207-270 | getRange arrives at the numbers of any reading of its text and accepts exactly the well-formed readings |
| CronParser.AcceptedHasReading | core/cron/parser.go:207-270 | every accepted text has a reading |
| CronParser.RangeOfMeans | core/cron/parser.go:207-270 | acceptance and values of an item depend on its meaning alone; the star flag on its first characters |
| CronParser.GetRange | core/cron/parser.go:207-270 | bit i is set iff the item denotes i, bit 63 iff it starts with a lone star or question mark |
| CronParser.GetField | core/cron/parser.go:191-202 | the field is accepted iff every item is, and its set is exactly what some item denotes |
| CronParser.NewParser | core/cron/parser.go:66-73 | an optional day of week is an expected day of week; every other place and flag is as asked |
| CronParser.MinCompiles | core/cron/parser.go:321-325 | `1 << min` is the set compiled from the least value written as a number |
| CronParser.StarSetCompiles | core/cron/parser.go:312-314 | all values and the star bit are the set compiled from a star |
| CronParser.All | core/cron/parser.go:312-314 | the values from min to max and the star bit are set, no others |
| CronParser.ScheduleOf | core/cron/parser.go:317-368 | every descriptor gives the schedule compiled from the text it is documented to be equivalent to |
| CronParser.ParseDescriptor | core/cron/parser.go:317-380 | accepted are exactly the documented descriptors and `@every` with a duration; the schedule is the compiled documented text, or the rounded delay |
| CronParser.ExpandFields | core/cron/parser.go:141-156 | each place gets its field by rank, or its default; no index is out of range |
| CronParser.Parse | core/cron/parser.go:78-139 | accepted iff the text is a documented descriptor, in the grammar or an `@every` with a duration; the first two are compiled place by place, the last gives its delay |
| CronParser.CompiledMatches | core/cron/spec.go:147-158 | the compiled sets match a time iff the text means it, star rule included |
| CronParser.NextOfSpec | core/cron/parser.go:78-139 | Next on a parsed text is the least second the text means up to the end of the fifth calendar year after that of the next second, none exactly when there is none, and for `@every` the delay later |
| CronMeaning.AtoiDecimal | core/cron/parser.go:282-293 | decimal notation is read back, with an optional sign, as far as 64 bits reach |
| CronMeaning.NumberMeans | core/cron/spec.go:18-47 | a number is accepted exactly in the range of its place (0-59, 0-59, 0-23, 1-31, 1-12, 0-6) and stands for itself |
| CronMeaning.MonthNameMeans | core/cron/spec.go:23-36 | jan to dec, in any letter case, are months 1 to 12 |
| CronMeaning.DayNameMeans | core/cron/spec.go:37-46 | sun to sat, in any letter case, are the days of the week from Sunday on |
| CronMeaning.StarMeans | core/cron/parser.go:218-221 | a lone star or question mark stands for every value of its place |
| CronMeaning.SpanMeans | core/cron/parser.go:207-270 | a span, with an optional step, is accepted exactly if it is ascending, in range and the step is not zero |
| CronMeaning.StepMeans | core/cron/parser.go:237-255 | a number with a step counts on to the end of the range, a star with a step from its beginning; a zero step is refused |
| CronMeaning.NegativeStep | core/cron/parser.go:282-293 | a negative step is refused |
| CronMeaning.ListMeans | core/cron/parser.go:191-202 | a comma list means its parts together, is accepted if all are, and empty parts count for nothing |
| CronMeaning.FieldsOf | core/cron/parser.go:96-96 | the fields of a text are the pieces it was put together from |
| CronMeaning.AnyBlankSeparates | core/cron/parser.go:96-96 | tabs, line ends and wide blanks separate fields as spaces do |
| CronMeaning.FieldCount | core/cron/parser.go:98-104 | with all places expected there must be six fields, or five if the day of week is optional |
| CronMeaning.ItemsMean | core/cron/spec.go:147-158 | a text of plain items is accepted and means what they mean place by place; a starred day field makes both count, otherwise one is enough |
| CronMeaning.NumbersMean | core/cron/parser.go:78-139 | six numbers are accepted exactly if all are in range, and mean the seconds with that second, minute, hour and month and that day of month or that day of week |
| CronMeaning.FiveNumbersMean | core/cron/parser.go:78-139 | five numbers, where the day of week is optional, mean the day of month alone |
| CronMeaning.OmittedPlace | core/cron/parser.go:41-48 | a place left out means zero for second, minute and hour and everything for the others |
| CronMeaning.DescriptorsMean | core/cron/doc.go:79-83 | each of the seven descriptors is accepted and means the calendar times it is documented for |
| CronMeaning.NoDescriptors | core/cron/parser.go:82-84 | a parser without the option refuses them |
| CronMeaning.EveryMeans | core/cron/parser.go:370-377 | `@every ` followed by a duration gives the delay of that duration |
| CronNext.MonthStep | core/cron/spec.go:80-93 | a month step skips no match and stops at a clean boundary |
| CronNext.DayStep | core/cron/spec.go:96-106 | a day step skips no match and stops at a clean boundary |
| CronNext.HourStep | core/cron/spec.go:108-118 | an hour step skips no match and stops at a clean boundary |
| CronNext.MinuteStep | core/cron/spec.go:120-130 | a minute step skips no match and stops at a clean boundary |
| CronNext.SecondStep | core/cron/spec.go:132-142 | a second step skips no match and stops at a clean boundary |
| CronNext.Next | core/cron/spec.go:55-145 | the least matching second after t up to the end of the fifth calendar year after that of the next second, none if and only if there is none; termination for all bit sets |
| CronLink.StaysLeast | core/cron/spec.go:53-55 | the least match stays the least match for later starting times before it |
| CronLink.NextIsLeast | core/cron/spec.go:53-55 | anything that meets the contract of Next meets the scheduler's accounting contract |
| CronLink.NextExists | core/cron/spec.go:55-145 | at every second there is an answer that meets the contract of Next |
| CronLink.ActivationIffMatches | core/cron/spec.go:55-145 | the activations of a compiled schedule are exactly the seconds it matches |
| CronLink.NextSecIsNext | core/cron/spec.go:55-145 | what the method Next returns is the answer the scheduler theorems speak of |
| CronLink.GivesUpIff | core/cron/spec.go:70-78 | Next gives up at a second exactly when nothing matches from there up to the year limit |
| CronLink.RunFollowsText | core/cron/cron.go:170-222 | over all runs an entry is started only for seconds its text means, never early; of such seconds since it joined exactly those up to the last computation of Next were started or past at the start before, and all before Next |
| CronLink.MissedIffGivenUp | core/cron/cron.go:191-202 | after a timer event a second the text means is missed if and only if it is later than the last computation of Next, and then the text means nothing from there up to the year limit |
| CronLink.NoGapIffText | core/cron/spec.go:70-78 | the schedule has no gap from a second on if and only if the text always means a second within the year limit when it means a later one |
| CronLink.TextNeverMissesIff | core/cron/cron.go:170-222 | from any point of any run, no continuation misses a second the text means if and only if the text has no gap from the last computation of Next on |
| CronLink.DelayIsLater | core/cron/constantdelay.go:25-27 | the schedule of `@every` is always later than its argument |
| CronLink.RunKeepsDelay | core/cron/cron.go:170-222 | over all runs an `@every` entry always has a Next, and each start is due exactly the delay after the start before it happened |
| CronLink.YearlyHasNext | core/cron/spec.go:70-78 | a text that means a second of every year always has a Next, in the same calendar year or the one after |
| CronLink.YearlyHasNoGap | core/cron/spec.go:70-78 | so it has no gap, and no run misses a second it means |
| CronLink.DescriptorsAreYearly | core/cron/doc.go:79-83 | all descriptors are such texts |
| CronDelay.Every | core/cron/constantdelay.go:14-21 | the delay is a whole number of seconds, at least one, and otherwise the duration rounded down |
| CronDelay.NextIsOnTheSecond | core/cron/constantdelay.go:25-27 | the next activation is on the second, later than t, and the whole delay after the second t lies in |
| CronGap.TextMeans | core/cron/parser.go:78-139 | `0 0 0 29 2 */3` is accepted and means midnight of each 29 February on a Sunday, Wednesday or Saturday |
| CronGap.GapFrom | core/cron/spec.go:70-78 | from any second of 2021 to 2026 the search gives up on that text, although it means 2032-02-29 |
| CronGap.LeapSundayIsMissed | core/cron/cron.go:170-222 | in every run that starts in one of those seconds an entry with that text never gets a Next and is never started |
| CronRun.JoinedIsGood | core/cron/cron.go:170-175 | an entry whose Next has just been computed has a sound, empty history; Prev is left alone |
| CronRun.FiringKeepsGood | core/cron/cron.go:195-202 | a firing is not early, repeats no activation, accounts for all up to its clock reading, and the new Next is after now |
| CronRun.NoneBeforeNext | core/cron/cron.go:28-33 | between an instant and its Next there is no activation |
| CronRun.RunIsGood | core/cron/cron.go:170-222 | over all runs each entry's history is sound (no start early or twice, each computed at the start before it, all activations up to the last computation of Next accounted for), and after a timer event every nonzero Next is later than now |
| CronRun.GoodMeans | core/cron/cron.go:195-202 | a sound history accounts for nothing later than the last computation of Next, and for all activations before Next |
| CronRun.MissedIff | core/cron/cron.go:191-202 | after a timer event an activation is missed if and only if it is later than the last computation of Next, and then that computation gave the zero time |
| CronRun.RestExtends | core/cron/cron.go:191-222 | the rest of a run only extends a history, and an entry whose Next is the zero time stays as it is |
| CronRun.NeverMissesIff | core/cron/cron.go:170-222 | from any point of any run, no continuation misses an activation if and only if from the last computation of Next on the schedule never gives up while one is still to come |
| CronRun.RunKeepsEntries | core/cron/cron.go:170-222 | a run drops no entry, changes no schedule, and leaves the Prev of an earlier run until the entry is started |
| CronRun.EntriesCounted | core/cron/cron.go:204-208 | over all runs the list holds the entries of the start and one for each add |
| CronRun.FirstEntries | core/cron/cron.go:172-175 | an entry of the start joined at the starting clock reading, with the Next its schedule gives there, and its history only grows |
| CronRun.AddedEntry | core/cron/cron.go:204-208 | the entry of each add comes behind those there were, joined at the clock reading of that event with the Next its schedule gives there, and its history only grows |
| CronRun.TimerFires | core/cron/cron.go:191-202 | a timer event starts exactly the entries whose nonzero Next is not later than the clock reading, once each, and computes their Next anew |
| CronRun.FireAllPermutes | core/cron/cron.go:177-179 | firing does not depend on the order of entries |
| CronRun.SortByTime | core/cron/cron.go:56-69 | a permutation sorted by byTime, zero times last |
| CronRun.Cron.Deadline | core/cron/cron.go:181-188 | the timer is armed for the earliest nonzero Next |
| CronRun.Cron.Arm | core/cron/cron.go:177-188 | the list is sorted and the timer armed for its earliest nonzero Next |
| CronRun.Cron.FireDue | core/cron/cron.go:192-202 | the loop that breaks at the first entry not due fires exactly the due entries |
| CronRun.Cron.ComputeNexts | core/cron/cron.go:172-175 | every entry's Next is computed from the starting clock reading, and Prev stays |
| CronRun.Cron.Receive | core/cron/cron.go:191-217 | the select cases |
| CronRun.Cron.Run | core/cron/cron.go:170-222 | entries are, up to order, those of the run that never sorts, there is one such snapshot for each request, and at every select the timer is armed for the earliest nonzero Next |
| CronRun.Cron.EntrySnapshot | core/cron/cron.go:243-254 | a snapshot is an equal copy |
| CronRun.Cron.Schedule | core/cron/cron.go:110-121 | before the loop runs, an entry is appended with zero Next and Prev |
| WorkerPool.SeatsKept | worker_pool.go:63-218 | every step keeps each channel in at most one of ready, stopping, leased, message pending, busy, pooled |
| WorkerPool.WorkersChange | worker_pool.go:149-218 | only creation adds a worker and only the final decrement ends one |
| WorkerPool.CountedKept | worker_pool.go:149-218 | workersCount stays the number of live workers and within the limit |
| WorkerPool.CallKept | worker_pool.go:126-185 | every Serve call has exactly one outcome |
| WorkerPool.JobKept | worker_pool.go:200-218 | every step keeps each accepted task carried by one channel or executed once |
| WorkerPool.RunKeepsInv | worker_pool.go:63-218 | all of this over every interleaving of Serve, workers, clean and Stop |
| WorkerPool.PoolIsSafe | worker_pool.go:63-218 | a live or pooled channel is in exactly one place and no other in more than one, no send finds its buffer full, workersCount is exact and bounded, no task runs twice, none accepted is lost |
| WorkerPool.StoppedKept | worker_pool.go:187-198 | after Stop no worker becomes ready again |
| WorkerPool.FinishingWorks | worker_pool.go:126-218 | every step that finishes something begun is one less to come |
| WorkerPool.FinishesInTime | worker_pool.go:126-218 | what has been begun is finished in a bounded number of steps, in any order |
| WorkerPool.BegunMoves | worker_pool.go:126-218 | while something begun is left to finish, a step that finishes it can be taken |
| WorkerPool.RestIsComplete | worker_pool.go:63-82 | over every interleaving, when no finishing step can be taken every accepted task has run exactly once, every Serve call is answered, the workers are the ready ones, and after Stop workersCount is zero |
| WorkerHistory.ServeOutcome | worker_pool.go:149-185 | over all interleavings a lease is possible if and only if a worker is ready; otherwise a worker is reserved if and only if fewer workers are live or about to be created than the limit, and the call refused if and only if there are as many |
| WorkerHistory.RunRecorded | worker_pool.go:126-185 | calls are numbered in order and keep their task |
| WorkerHistory.CallsAreServed | worker_pool.go:126-218 | over all interleavings, when nothing begun is left to finish, the n-th call returned false if and only if it was refused, and its task has run, once, if and only if it was neither refused nor nil |
| WorkerHistory.NewestServedOldestCleaned | worker_pool.go:91-175 | over all interleavings Serve takes the worker that became ready last, the cleaner those that became ready first |
| WorkerHistory.RetiringKept | worker_pool.go:200-218 | a worker that was taken off the list to stop, has a nil to receive or is ending never runs a task or becomes ready again |
| WorkerHistory.StepRetires | worker_pool.go:63-124 | the cleaner retires those it cuts off, Stop all that are ready, a nil task the worker it is sent to, and after Stop no worker becomes ready |
| WorkerHistory.WorkersStay | worker_pool.go:187-218 | without the cleaner, Stop and nil tasks no worker ever ends |
| WorkerHistory.StopRecorded | worker_pool.go:63-82 | mustStop is set if and only if Stop was called |
| WorkerHistory.StopEndsAll | worker_pool.go:63-82 | after Stop, when nothing begun is left to finish, there is no worker |
| WorkerHistory.NoChannelLost | worker_pool.go:149-198 | unless the pool drops one, every channel ever created is in exactly one place |
| WorkerHistory.SendsNeverBlock | worker_pool.go:63-147 | over all interleavings no send of Serve, the cleaner or Stop finds its buffer full |
| WorkerHistory.ChannelsAreReused | worker_pool.go:165-184 | a new worker gets a new channel or one from the pool, and the channel of an ended worker goes to the pool |
| WorkerHistory.CleanerCuts | worker_pool.go:91-112 | whatever the stamps, the cleaner can make the cut it decides on and takes exactly the channels before it |
| WorkPool.PhasesKept | workpool/workpool.go:63-132 | every step keeps: the queue is closed only empty, the flag brackets the dispatcher, a cleared flag on a closed queue means no more sends |
| WorkPool.PlacesKept | workpool/workpool.go:84-132 | every step keeps the number of places a submitted task is in |
| WorkPool.RunKeepsInv | workpool/workpool.go:63-132 | both over every interleaving |
| WorkPool.WaitRunsEverything | workpool/workpool.go:63-75 | nothing is sent on the closed channel, and when Wait returns every submitted task has run as often as submitted |
| WorkPool.ChannelBound | workpool/workpool.go:24-33 | there are max(1, max) workers and room for two tasks each in the channel; the dispatcher waits with a task exactly while it is full |
| WorkPool.StartedInOrder | workpool/workpool.go:43-132 | over all interleavings workers take the tasks in the order in which they were submitted |
| WorkPool.CallsAreOpen | workpool/workpool.go:43-75 | until Wait is called, Do submits any task and Wait can be called |
| WorkPool.ServiceWorks | workpool/workpool.go:84-132 | every step of the dispatcher or a worker is one step of work less |
| WorkPool.SettledWaiterAdvances | workpool/workpool.go:63-120 | once dispatcher and workers are at rest the waiter is not blocked and nothing sends it back |
| WorkPool.WaitReturns | workpool/workpool.go:63-132 | in every fair execution from a reachable state after the call of Wait, Wait returns with every submitted task run |
| RingMath.AndMask | workpool/queue/queue.go:10-12 | masking with 2^k - 1 is the remainder modulo 2^k |
| RingMath.MaskWraps | workpool/queue/queue.go:55-56 | the masked index is the index taken around the ring |
| RingMath.UnrollAdd | workpool/queue/queue.go:50-58 | storing at the tail appends, through a wrap as well |
| RingMath.UnrollRemove | workpool/queue/queue.go:87-95 | clearing the head drops the first element |
| RingMath.UnrollCopy | workpool/queue/queue.go:35-47 | copying slot by slot from the head keeps the sequence |
| RingMath.AddPays | workpool/queue/queue.go:50-58 | an add, with its resize, costs at most two against the potential and keeps the capacity bound |
| RingMath.RemovePays | workpool/queue/queue.go:87-101 | a remove, with its resize, costs at most one against the potential and keeps the capacity bound |
| RingMath.ResizesAreCheap | workpool/queue/queue.go:35-101 | over all runs at most 2 * adds + removes + 8 elements are copied; capacity is 16 or less than 4 * count |
| RingQueue.CopyInto | workpool/queue/queue.go:38-43 | Go's copy of a slice segment |
| RingQueue.Queue.constructor | workpool/queue/queue.go:22-26 | an empty queue of the minimum capacity |
| RingQueue.Queue.Length | workpool/queue/queue.go:29-31 | the length of the sequence |
| RingQueue.Queue.Resize | workpool/queue/queue.go:35-47 | twice the count as capacity, the same sequence, whether or not it wrapped |
| RingQueue.Queue.Add | workpool/queue/queue.go:50-58 | appends to the sequence and follows the growth policy |
| RingQueue.Queue.Peek | workpool/queue/queue.go:62-67 | the first element, or the panic when empty |
| RingQueue.Queue.Get | workpool/queue/queue.go:73-83 | the indexed element, negative indices from the end, or the panic |
| RingQueue.Queue.Remove | workpool/queue/queue.go:87-101 | takes the first element and follows the shrink policy, or the panic when empty |
| MyQueue.MyQueue.constructor | workpool/myqueue/myqueue.go:23-29 | an open, empty queue |
| MyQueue.MyQueue.Len | workpool/myqueue/myqueue.go:32-34 | what is pushed and not popped while open, zero once closed |
| MyQueue.MyQueue.Push | workpool/myqueue/myqueue.go:122-131 | appends while open, does nothing once closed |
| MyQueue.MyQueue.Take | workpool/myqueue/myqueue.go:48-53 | with a positive counter Peek and Remove do not panic and hand out the next item |
| MyQueue.MyQueue.Pop | workpool/myqueue/myqueue.go:37-55 | waits exactly while open and empty, returns nil exactly when closed, else the next item |
| MyQueue.MyQueue.TryPop | workpool/myqueue/myqueue.go:58-73 | the next item while open and not empty; ok as documented |
| MyQueue.MyQueue.Close | workpool/myqueue/myqueue.go:135-143 | closes for good; items in order and at most once so far stay so |
| IdleClean.SortedPrefixIsAll | zero/pool.go:98-107 | in a sorted list the stale prefix is exactly the stale workers |
| IdleClean.CutIsPrefixIff | zero/pool.go:98-107 | on any list the binary search never cuts before the linear scan, and cuts where it does if and only if no worker it looks at is stale behind a fresh one |
| IdleClean.SortedIsNotMisleading | zero/pool.go:98-107 | on a sorted list no such worker exists |
| IdleClean.UnsortedCanRemoveFresh | zero/pool.go:98-107 | two stale workers behind a fresh one take the fresh one with them |
| IdleClean.SearchCut | zero/pool.go:98-107 | the loop ends where the search of the lemmas cuts, at a stale worker followed by a fresh one |
| IdleClean.ShiftDown | worker_pool.go:107-107 | Go's copy of a slice to its own front: the slots from k on move down in order, the others stay |
| IdleClean.CutPrefix | worker_pool.go:105-112 | hands out the prefix, shifts the rest in place in order, clears the freed slots |
| IdleClean.CleanLinear | worker_pool.go:91-124 | the stale prefix is removed, the rest kept in order, for any list: those removed were idle longer than the limit (ten seconds if none is given), the first that stays was not |
| IdleClean.CleanBinary | zero/pool.go:92-125 | for any list the prefix before the cut is removed and the rest kept in order; the result is that of the linear scan if and only if the search is not misled, so for every sorted list |
| IdleClean.SortednessKept | zero/pool.go:195-207 | push, pop and clean keep a list sorted when stamps follow the order of appends |

## Left out

- Names, fmt formatting and renames of files, and the contents of bufio buffers: a data file is a byte sequence, a handle an offset, the metadata a five-number record.
- Failing file operations other than a missing or short file, partial writes and failed fsyncs.
- Messages of 2^31 bytes and more, and size limits outside 0 <= minMsgSize <= maxMsgSize <= 2^31 - 5: the int32 length arithmetic of the source wraps there.
- DiskCrash.CrashRecoversIff: speaks of the recovered contents only, since what a buffered reader later sees when a longer leftover file is overwritten is outside the model.
- DiskDamage.DeliveredWhole: says nothing of what a file delivers once it has itself been damaged.
- DiskIo.DiskQueue.IoLoop: a list of events stands for the choices of select; the answer channels are in `DiskPairing`.
- Delete, which is exit without the final sync, and a second Close, which panics on the closed channel.
- Starting the disk queue from metadata whose read cursor is past its write cursor: New accepts it and the loop need not settle.
- Time zones and daylight saving in Next, sub-second parts of its argument beyond rounding down; time.ParseDuration is a parameter.
- CronText.Fields, CronText.ToLower: white space below U+0100 and ASCII letters only.
- CronRun.Cron.Run: sort.Sort is an insertion sort here, jobs are recorded firings instead of goroutines, and the end of the event list is the receipt of stop; the panic recovery around a job and the unsynchronised `running` flag are not modelled.
- CronRun.RunIsGood: between two runs of one Cron nothing is claimed, since run computes every Next afresh.
- WorkerPool.PoolIsSafe: Stop's section under the lock is one step, since no other step needs the lock-protected fields while it sends to empty buffers; one cleaner, one Stop; what WorkerFunc does is not modelled.
- WorkPool.WaitRunsEverything: assumes, as its callers must, that worker set-up and all calls of Do come before Wait and that no task fails or times out; DoWait, SetTimeout and nil tasks are not modelled. That Wait returns is proved for fair executions, in `WaitReturns`.
- MyQueue: TryPopTimeout and its helper goroutine, and the lock-free reads in Wait, which `WorkPool` models as separate steps.
- IdleClean: sending the stop messages, which `WorkerPool` models; saturation of time differences beyond 292 years.
- zero/pool.go other than Clean, and every package not named above (bytebufferpool, service, dao, config, model, consume, registry, watch, chromedp, vlog, limiter, bitmap, core/json, core/middleware, the programs in the root and work_test): no rule of theirs is needed here.
