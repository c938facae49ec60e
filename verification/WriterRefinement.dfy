/**
 The writer object refines the writer protocol: whatever its methods do, failures
 included, is a run of protocol steps, and the directory is the one that run leads to.
 */
module WriterRefinement {
  import opened RecordFormat
  import opened DataDirectory
  import opened FileRoll
  import opened FileStore
  import opened StoreHistory
  import opened SharedDirectory
  import opened WriterProtocol
  import opened RecordWriter

  /** A writer with its thread, and the protocol run behind it. */
  class TracedWriter {
    const writer: BinaryRecordWriter
    ghost const start: GoodStore
    ghost var history: seq<Step>
    ghost var state: State

    ghost predicate Rest()
      reads this, writer, writer.dir
    {
      && writer.Valid() && Behind(writer.f, start, history, state, writer.View(), writer.Shared())
      && AtRest(state.worker)
    }

    ghost predicate Valid()
      reads this, writer, writer.dir
    {
      Rest() && state.closer == Idle
    }

    constructor (f: Format, dir: DataDir)
      ensures Valid() && start == Store(dir.files, NoFile) && history == [] && state == NEVER_OPENED
      ensures fresh(writer) && writer.f == f && writer.dir == dir
    {
      writer := new BinaryRecordWriter(f, dir);
      start, history, state := Store(dir.files, NoFile), [], NEVER_OPENED;
      new;
      BehindNothing(f, start);
    }

    method Open(capacity: nat, canCreate: bool) returns (ok: bool)
      requires Valid() && (!writer.running && capacity > 0 && canCreate ==> !writer.joinable)
      modifies this, writer
      ensures Valid() && ok == (!old(writer.running) && capacity > 0 && canCreate)
      ensures state.clean == old(state.clean) && state.events == old(state.events)
      ensures history == old(history) + if ok then [Start(capacity)] else []
    {
      hide Behind, Run, ValidRun, IsRecord;
      ghost var view, x := writer.Directory(), writer.Shared();
      WorkerShown(writer.f, start, history, state, view, x);
      ok := writer.Open(capacity, canCreate);
      if ok {
        state := TakeStart(writer.f, start, history, state, view, x, capacity);
        history := history + [Start(capacity)];
      }
    }

    /** write(), and the notification that follows it when the queue was empty. */
    method Write(record: Record) returns (ok: bool)
      requires Valid() && IsRecord(writer.f, record)
      modifies this, writer
      ensures Valid()
      ensures ok == (old(writer.accepting) && old(writer.running) && |old(writer.queue)| < old(writer.queueCapacity))
      ensures history == old(history) + [Offer(record)] + if ok && old(writer.queue) == [] then [NotifyOne] else []
      ensures state.clean == old(state.clean) && state.events == old(state.events)
    {
      hide Behind, Run, ValidRun, IsRecord;
      ghost var view, x := writer.Directory(), writer.Shared();
      var notify;
      ok, notify := writer.Write(record);
      state := TakeOffer(writer.f, start, history, state, view, x, record);
      history := history + [Offer(record)];
      assert writer.Shared() == AfterOffer(x, record);
      if notify {
        state := TakeNotify(writer.f, start, history, state, view, AfterOffer(x, record));
        history := history + [NotifyOne];
      }
    }

    /**
     One turn of the worker: woken up, it drains a batch, leaves its loop, or goes back to
     sleep.
     */
    method WorkerTurn(turns: seq<Turn>) returns (ghost steps: seq<Step>)
      requires Rest() && writer.looping && InTime(writer.f, writer.queue[..BatchSize(|writer.queue|)], turns)
      modifies this, writer, writer.dir
      ensures Rest() && history == old(history) + steps && state.closer == old(state.closer)
      ensures writer.recordsWritten + writer.recordsDropped + |writer.queue|
           == old(writer.recordsWritten + writer.recordsDropped + |writer.queue|)
      ensures old(writer.queue) == [] ==> writer.queue == [] && writer.looping == writer.running && !writer.writeError
      ensures old(writer.queue) != [] && !writer.writeError ==>
                writer.queue == old(writer.queue)[BatchSize(|old(writer.queue)|)..] && writer.looping
      ensures !writer.writeError ==>
                writer.recordsDropped == old(writer.recordsDropped) && writer.running == old(writer.running)
      ensures writer.writeError ==> writer.queue == [] && !writer.running && !writer.looping
      ensures old(!writer.running) ==> !writer.running
      ensures !old(writer.writeError) && writer.joinable == old(writer.joinable)
      ensures SameOthers(writer.f, old(writer.dir.files), writer.dir.files)
      ensures CalmTurns(turns, BatchSize(|old(writer.queue)|)) ==>
                (Intact(writer.f, start, old(state.events)) ==> Intact(writer.f, start, state.events))
                && (!writer.writeError ==> state.clean == old(state.clean))
      ensures FaultFree(turns, BatchSize(|old(writer.queue)|)) && Exact(writer.f, start) && old(state.clean) ==>
                !writer.writeError
    {
      hide Behind, Run, ValidRun, IsRecord, InTime, BinaryRecordWriter.Valid, SameOthers, Intact, Exact, CalmTurns, FaultFree;
      SameAsBefore(writer.f, writer.dir.files);
      WakeUp();
      steps := if old(state.worker) == Checking then [] else [SpuriousWake];
      ghost var more;
      if writer.queue == [] {
        more := LookAgain();
      } else {
        more := Drain(turns);
      }
      steps := steps + more;
    }

    /** Nothing queued: sleep, or leave the loop after close(). */
    method LookAgain() returns (ghost steps: seq<Step>)
      requires Rest() && writer.looping && writer.queue == [] && state.worker == Checking
      modifies this, writer
      ensures Rest() && history == old(history) + steps && steps == [Check]
      ensures state.closer == old(state.closer) && state.clean == old(state.clean) && state.events == old(state.events)
      ensures writer.Shared() == old(writer.Shared()).(looping := writer.running) && !writer.writeError
    {
      hide Behind, Run, ValidRun, IsRecord;
      ghost var view, x := writer.Directory(), writer.Shared();
      writer.LeaveWhenDone();
      state := TakeCheck(writer.f, start, history, state, view, x);
      history, steps := history + [Check], [Check];
      assert x.queue[0..] == x.queue;
    }

    /** Something queued: a batch is taken and written, or the writer stops at a failure. */
    method Drain(turns: seq<Turn>) returns (ghost steps: seq<Step>)
      requires Rest() && writer.looping && writer.queue != [] && state.worker == Checking
      requires InTime(writer.f, writer.queue[..BatchSize(|writer.queue|)], turns)
      modifies this, writer, writer.dir
      ensures Rest() && history == old(history) + steps && state.closer == old(state.closer)
      ensures writer.recordsWritten + writer.recordsDropped + |writer.queue|
           == old(writer.recordsWritten + writer.recordsDropped + |writer.queue|)
      ensures !writer.writeError ==>
                writer.Shared() == old(writer.Shared()).(queue := old(writer.queue)[BatchSize(|old(writer.queue)|)..],
                                                         written := writer.recordsWritten)
      ensures writer.writeError ==>
                writer.queue == [] && !writer.running && !writer.looping && writer.joinable == old(writer.joinable)
      ensures SameOthers(writer.f, old(writer.dir.files), writer.dir.files)
      ensures CalmTurns(turns, BatchSize(|old(writer.queue)|)) ==>
                (Intact(writer.f, start, old(state.events)) ==> Intact(writer.f, start, state.events))
                && (!writer.writeError ==> state.clean == old(state.clean))
      ensures FaultFree(turns, BatchSize(|old(writer.queue)|)) && Exact(writer.f, start) && old(state.clean) ==>
                !writer.writeError
    {
      hide Behind, Run, ValidRun, IsRecord, InTime, CauseOfFailure, Goes, AfterWrites, Recorded, Drained, Calm, AllEvents,
           BinaryRecordWriter.Valid, SameOthers, Intact, Exact, CalmTurns, FaultFree, NoLoss, WriteSteps, LastSteps;
      Resting();
      ghost var view, x := writer.Directory(), writer.Shared();
      ghost var ws, left := writer.DrainBatch(turns);
      ghost var failed, view', y := writer.writeError, writer.View(), writer.Shared();
      DrainedFields(writer.f, view, x, turns, ws, left, failed, view', y);
      DrainKeeps(writer.f, start, history, state, view, x, turns, ws, left, failed, view', y);
      if FaultFree(turns, BatchSize(|x.queue|)) && Exact(writer.f, start) && state.clean {
        DrainGoesWell(writer.f, start, history, state, view, x, turns, ws, left, failed, view', y);
      }
      ghost var t;
      steps, t := DrainRefines(writer.f, start, history, state, view, x, turns, ws, left, failed, view', y);
      history, state := history + steps, t;
    }

    /** A waiting worker that is given the processor wakes up to look. */
    ghost method WakeUp()
      requires Rest() && writer.looping
      modifies this
      ensures Rest() && state.worker == Checking && state.closer == old(state.closer) && state.clean == old(state.clean)
      ensures state.events == old(state.events)
      ensures history == old(history) + if old(state.worker) == Checking then [] else [SpuriousWake]
      ensures !writer.writeError
    {
      hide Behind, Run, ValidRun;
      var view, x := writer.Directory(), writer.Shared();
      WorkerShown(writer.f, start, history, state, view, x);
      if state.worker == Waiting {
        state := TakeSpurious(writer.f, start, history, state, view, x);
        history := history + [SpuriousWake];
      }
    }

    /**
     close(): the flags are cleared, the worker finishes the queue, the thread is joined
     and the last file closed.  Every queued record is then written or counted as dropped,
     and without a failure it is written.
     */
    method Close(turns: seq<Turn>, fault: Fault) returns (ghost steps: seq<Step>)
      requires Valid() && InTime(writer.f, writer.queue, turns)
      modifies this, writer, writer.dir
      ensures Valid() && history == old(history) + steps && state.worker == Absent
      ensures !writer.running && !writer.joinable && writer.queue == []
      ensures writer.recordsWritten + writer.recordsDropped
           == old(writer.recordsWritten + writer.recordsDropped + |writer.queue|)
      ensures !writer.writeError ==> writer.recordsDropped == old(writer.recordsDropped)
      ensures SameOthers(writer.f, old(writer.dir.files), writer.dir.files)
      ensures CalmTurns(turns, |old(writer.queue)|) ==>
                (Intact(writer.f, start, old(state.events)) ==> Intact(writer.f, start, state.events))
                && (!writer.writeError ==> state.clean == old(state.clean))
      ensures (FaultFree(turns, |old(writer.queue)|) && fault.Works? && Exact(writer.f, start)
               && old(state.clean) && !old(writer.writeError)) ==> !writer.writeError
    {
      hide Behind, Run, ValidRun, IsRecord, InTime, BinaryRecordWriter.Valid, SameOthers, Intact, Exact, CalmTurns, FaultFree;
      ghost var q, calm, free := writer.queue, CalmTurns(turns, |writer.queue|), FaultFree(turns, |writer.queue|);
      ghost var fine := free && Exact(writer.f, start) && state.clean && !writer.writeError;
      LaterInTime(writer.f, writer.queue, turns, 0);
      SameAsBefore(writer.f, writer.dir.files);
      FreeIsCalm(turns, |q|);
      steps := BeginClose();
      var used: nat := 0;
      while writer.looping
        invariant Rest() && state.closer == Joining && !writer.running && history == old(history) + steps
        invariant used <= |q| <= |turns|
        invariant writer.looping ==> writer.queue == q[used..]
        invariant writer.recordsWritten + writer.recordsDropped + |writer.queue|
               == old(writer.recordsWritten + writer.recordsDropped + |writer.queue|)
        invariant !writer.writeError ==> writer.recordsDropped == old(writer.recordsDropped)
        invariant SameOthers(writer.f, old(writer.dir.files), writer.dir.files)
        invariant calm ==>
                    (Intact(writer.f, start, old(state.events)) ==> Intact(writer.f, start, state.events))
                    && (!writer.writeError ==> state.clean == old(state.clean))
        invariant fine ==> !writer.writeError
        decreases |writer.queue|, writer.looping
      {
        LaterInTime(writer.f, q, turns, used);
        LaterFaults(turns, used, BatchSize(|writer.queue|), |q|);
        var taken := BatchSize(|writer.queue|);
        ghost var disk := writer.dir.files;
        ghost var more := WorkerTurn(turns[used..]);
        OthersStay(writer.f, old(writer.dir.files), disk, writer.dir.files);
        steps := steps + more;
        used := used + taken;
      }
      Resting();
      ghost var disk := writer.dir.files;
      ghost var last := JoinWorker(fault);
      OthersStay(writer.f, old(writer.dir.files), disk, writer.dir.files);
      steps := steps + [last];
    }

    /**
     Another writer may work in the same directory: what it does to files of its own
     stream leaves this one valid.
     */
    twostate lemma OthersMayWork()
      requires old(Valid()) && unchanged(this) && unchanged(writer)
      requires SameFiles(writer.f, old(writer.dir.files), writer.dir.files)
      ensures Valid()
    {
      hide Behind, Run, ValidRun, After, Possible, IsHourlyName, SameFiles;
      OthersMove(writer.f, start, history, state, old(writer.View()), writer.View(), writer.Shared());
    }

    /**
     What the protocol's theorems say about the object between calls, after any failures:
     every call that found the writer accepting is accounted for, the directory is sound,
     and unless records were lost while a file was reopened, nothing complete in it is lost.
     */
    lemma Accounts()
      requires Valid()
      ensures state.offered == writer.recordsWritten + writer.recordsDropped + |writer.queue|
      ensures Sound(writer.f, start) ==>
                Sound(writer.f, writer.Directory())
                && (Intact(writer.f, start, state.events) ==> RecordsKept(writer.f, start, writer.Directory()))
    {
      hide Run, ValidRun, Sound, DurableKept, After, Possible, BinaryRecordWriter.Valid, BinaryRecordWriter.Shared, Intact;
      Resting();
      AccountsOf(writer.f, start, history, state, writer.View(), writer.Shared());
      SharedIs();
    }

    lemma SharedIs()
      ensures writer.Shared().queue == writer.queue && writer.Shared().written == writer.recordsWritten
      ensures writer.Shared().dropped == writer.recordsDropped
    {
    }

    /** What the object promises between turns. */
    lemma Resting()
      requires Rest()
      ensures writer.FilesOk() && (!writer.looping ==> writer.queue == [])
    {
    }

    /** close(), up to the point where it waits for the thread. */
    method BeginClose() returns (ghost steps: seq<Step>)
      requires Valid()
      modifies this, writer
      ensures Rest() && history == old(history) + steps && state.closer == Joining && state.clean == old(state.clean)
      ensures writer.View() == old(writer.View()) && writer.writeError == old(writer.writeError)
      ensures writer.Shared() == old(writer.Shared()).(running := false, accepting := false)
      ensures state.events == old(state.events)
    {
      hide Behind, Run, ValidRun;
      ghost var view, x := writer.Directory(), writer.Shared();
      writer.ClearFlags();
      state := TakeCloseBegin(writer.f, start, history, state, view, x);
      history := history + [CloseBegin];
      state := TakeNotifyAll(writer.f, start, history, state, view, writer.Shared());
      history := history + [NotifyAll];
      steps := [CloseBegin, NotifyAll];
    }

    /** close(), once the thread has left its loop. */
    method JoinWorker(fault: Fault) returns (ghost last: Step)
      requires Rest() && state.closer == Joining && !writer.running && !writer.looping
      modifies this, writer, writer.dir
      ensures Valid() && history == old(history) + [last] && state.worker == Absent
      ensures !writer.joinable && writer.Shared() == old(writer.Shared()).(joinable := false)
      ensures !writer.writeError ==> state.clean == old(state.clean) && !old(writer.writeError)
      ensures !old(writer.writeError) && fault.Works? ==> !writer.writeError
      ensures SameOthers(writer.f, old(writer.dir.files), writer.dir.files)
      ensures Intact(writer.f, start, old(state.events)) ==> Intact(writer.f, start, state.events)
    {
      hide Behind, Run, ValidRun, Recorded, SameOthers, Intact, AllHarmless;
      ghost var view, x := writer.Directory(), writer.Shared();
      WorkerShown(writer.f, start, history, state, view, x);
      ghost var left;
      var ok;
      ok, left := writer.JoinAndClose(fault);
      EventsKeep(writer.f, start, history, state, view, x, left);
      state := TakeJoin(writer.f, start, history, state, view, x, ok, left);
      last := Join(ok, left);
      history := history + [last];
    }
  }

  // ------------------------------------------------------------------ a batch refines

  predicate AtRest(w: Worker) {
    w == Absent || w == Finished || w == Checking || w == Waiting
  }

  lemma LaterInTime(f: Format, rs: seq<Record>, turns: seq<Turn>, used: nat)
    requires InTime(f, rs, turns) && used <= |rs|
    ensures |rs| <= |turns| && InTime(f, rs[used..][..BatchSize(|rs| - used)], turns[used..])
  {
    hide FilingTs, InRange;
    var later, after := rs[used..][..BatchSize(|rs| - used)], turns[used..];
    forall i | 0 <= i < |later| ensures InRange(FilingTs(f, later[i], after[i].now)) {
      assert later[i] == rs[used + i] && after[i] == turns[used + i];
    }
  }

  /** Nothing complete has been lost so far. */
  ghost predicate Intact(f: Format, start: GoodStore, events: seq<Event>) {
    ValidRun(f, events) && NoLoss(f, start, events)
  }

  /** Nothing complete in the stream's files is lost or altered. */
  ghost predicate RecordsKept(f: Format, s: GoodStore, t: GoodStore) {
    forall n :: IsHourlyName(f.prefix, n) ==> Durable(f, s, n) <= Durable(f, t, n)
  }

  /** A directory whose headers are whole and count exactly. */
  ghost predicate Exact(f: Format, s: GoodStore) {
    Sound(f, s) && CountsExact(f, s)
  }

  lemma AccountsOf(f: Format, start: GoodStore, history: seq<Step>, s: State, view: Store, x: Fields)
    requires Behind(f, start, history, s, view, x) && AtRest(s.worker) && view.WellFormed()
    ensures s.offered == x.written + x.dropped + |x.queue|
    ensures Sound(f, start) ==>
              Sound(f, view) && (Intact(f, start, s.events) ==> RecordsKept(f, start, view))
  {
    hide Run, ValidRun, Sound, DurableKept, After, Possible, NoLoss, SameStream;
    QueueConservation(f, start, history);
    if Sound(f, start) {
      RunIsSound(f, start, s.events);
      SoundIsLocal(f, Run(f, start, s.events), view);
    }
  }

  lemma SoundIsLocal(f: Format, s: GoodStore, t: GoodStore)
    requires SameStream(f, t, s) && Sound(f, s)
    ensures Sound(f, t)
    ensures CountsExact(f, s) ==> CountsExact(f, t)
    ensures forall r: GoodStore :: DurableKept(f, r, s) ==> RecordsKept(f, r, t)
  {
    hide SoundFile, SoundOpenFile, IsHourlyName, SlotsIn, HeaderCount;
  }

  /** The files of the stream stay as they are. */
  lemma OthersMove(f: Format, start: GoodStore, history: seq<Step>, s: State, view: Store, view': Store, x: Fields)
    requires Behind(f, start, history, s, view, x) && view.WellFormed()
    requires view'.file == view.file && SameFiles(f, view.disk, view'.disk)
    ensures Behind(f, start, history, s, view', x) && view'.WellFormed()
  {
    hide Run, ValidRun, After, Possible, IsHourlyName;
    RunKeepsOthers(f, start, s.events);
  }

  lemma SameAsBefore(f: Format, disk: Disk)
    ensures SameOthers(f, disk, disk)
  {
  }

  lemma OthersStay(f: Format, a: Disk, b: Disk, c: Disk)
    requires SameOthers(f, a, b) && SameOthers(f, b, c)
    ensures SameOthers(f, a, c)
  {
    hide IsHourlyName;
  }

  lemma FreeIsCalm(turns: seq<Turn>, n: nat)
    ensures FaultFree(turns, n) ==> CalmTurns(turns, n)
  {
  }

  lemma LaterFaults(turns: seq<Turn>, used: nat, taken: nat, n: nat)
    requires used + taken <= n <= |turns|
    ensures CalmTurns(turns, n) ==> CalmTurns(turns[used..], taken)
    ensures FaultFree(turns, n) ==> FaultFree(turns[used..], taken)
  {
    assert forall i :: 0 <= i < |turns[used..]| ==> turns[used..][i] == turns[used + i];
  }

  lemma LossConcat(f: Format, s: GoodStore, a: seq<Event>, b: seq<Event>)
    requires ValidRun(f, a) && ValidRun(f, b)
    ensures ValidRun(f, a + b) && (NoLoss(f, s, a) && NoLoss(f, Run(f, s, a), b) ==> NoLoss(f, s, a + b))
  {
    hide Loses, ValidEvent, Run;
    if NoLoss(f, s, a) && NoLoss(f, Run(f, s, a), b) {
      forall i | 0 <= i < |a + b| ensures !Loses(f, Run(f, s, (a + b)[..i]), (a + b)[i]) {
        if i < |a| {
          assert (a + b)[..i] == a[..i] && (a + b)[i] == a[i];
        } else {
          assert (a + b)[..i] == a + b[..i - |a|] && (a + b)[i] == b[i - |a|];
          RunConcat(f, s, a, b[..i - |a|]);
        }
      }
    }
  }

  /** What events of the writer keep: other files, and records if the events lose none. */
  lemma EventsKeep(f: Format, start: GoodStore, history: seq<Step>, s: State, view: GoodStore, x: Fields, es: seq<Event>)
    requires Behind(f, start, history, s, view, x) && ValidRun(f, es)
    ensures SameOthers(f, view.disk, Run(f, view, es).disk)
    ensures ValidRun(f, s.events + es)
    ensures NoLoss(f, view, es) && Intact(f, start, s.events) ==> Intact(f, start, s.events + es)
    ensures AllHarmless(es) ==> NoLoss(f, view, es)
  {
    hide Run, ValidRun, After, Possible, NoLoss, SameOthers, SameFiles, IsHourlyName, AllHarmless;
    RunKeepsOthers(f, start, s.events);
    RunKeepsOthers(f, view, es);
    LossConcat(f, start, s.events, es);
    RunIsLocal(f, view, Run(f, start, s.events), es);
    if AllHarmless(es) {
      NoLossInClosing(f, view, es);
    }
  }

  /** What draining a batch keeps. */
  lemma DrainKeeps(f: Format, start: GoodStore, history: seq<Step>, s: State, view: GoodStore, x: Fields,
                   turns: seq<Turn>, ws: seq<Done>, left: seq<Event>, failed: bool, view': Store, y: Fields)
    requires Behind(f, start, history, s, view, x) && Drained(f, view, x, turns, ws, left, failed, view', y)
    ensures Proper(f, ws) && ValidRun(f, left) && SameOthers(f, view.disk, view'.disk)
    ensures CalmTurns(turns, BatchSize(|x.queue|)) ==> Calm(ws)
    ensures (CalmTurns(turns, BatchSize(|x.queue|)) && NoLoss(f, AfterWrites(f, view, ws), left)
             && Intact(f, start, s.events)) ==> Intact(f, start, s.events + (AllEvents(ws) + left))
  {
    hide Run, ValidRun, Behind, NoLoss, SameOthers, AllHarmless, Goes, AfterWrites, AllEvents, Recorded, Intact;
    DrainedFields(f, view, x, turns, ws, left, failed, view', y);
    GoesProper(f, view, ws);
    WritesAreRun(f, view, ws);
    RunConcat(f, view, AllEvents(ws), left);
    EventsKeep(f, start, history, s, view, x, AllEvents(ws) + left);
    LossConcat(f, view, AllEvents(ws), left);
    if Calm(ws) {
      NoLossInClosing(f, view, AllEvents(ws));
    }
  }

  /** Without faults nothing fails: a clean history leaves no file that would refuse a record. */
  lemma DrainGoesWell(f: Format, start: GoodStore, history: seq<Step>, s: State, view: GoodStore, x: Fields,
                      turns: seq<Turn>, ws: seq<Done>, left: seq<Event>, failed: bool, view': Store, y: Fields)
    requires Behind(f, start, history, s, view, x) && Drained(f, view, x, turns, ws, left, failed, view', y)
    requires s.clean && Exact(f, start) && FaultFree(turns, BatchSize(|x.queue|))
    requires InTime(f, x.queue[..BatchSize(|x.queue|)], turns)
    requires Proper(f, ws)
    requires failed ==> CauseOfFailure(f, AfterWrites(f, view, ws), x.queue[..BatchSize(|x.queue|)], turns, |ws|)
    ensures !failed
  {
    hide Run, ValidRun, Sound, CountsExact, SameStream, Goes, AfterWrites, AllEvents, AllWritesOk, Recorded, After, Possible,
         FileStore.WriteToFile, FilingTs, InRange;
    DrainedFields(f, view, x, turns, ws, left, failed, view', y);
    ReachableInv(f, start, history);
    CleanRun(f, start, s.events);
    RunIsSound(f, start, s.events);
    SoundIsLocal(f, Run(f, start, s.events), view);
    CalmWritesStayExact(f, view, ws);
    if |ws| < BatchSize(|x.queue|) {
      WriteCountsExact(f, AfterWrites(f, view, ws), x.queue[|ws|], turns[|ws|].now);
    }
  }

  lemma CalmWritesStayExact(f: Format, s: GoodStore, ws: seq<Done>)
    requires Goes(f, s, ws) && Calm(ws) && Sound(f, s) && CountsExact(f, s)
    ensures Sound(f, AfterWrites(f, s, ws)) && CountsExact(f, AfterWrites(f, s, ws))
  {
    hide Run, ValidRun, Sound, CountsExact, Goes, AfterWrites, AllWritesOk;
    WritesAreRun(f, s, ws);
    CalmIsOrdinary(ws);
    CleanRun(f, s, AllEvents(ws));
    RunIsSound(f, s, AllEvents(ws));
  }

  lemma {:induction false} CalmIsOrdinary(ws: seq<Done>)
    requires Calm(ws)
    ensures CrashFree(AllEvents(ws))
  {
    if ws != [] {
      CalmIsOrdinary(ws[..|ws| - 1]);
    }
  }

  lemma BehindNothing(f: Format, start: GoodStore)
    requires start.file.NoFile?
    ensures Behind(f, start, [], NEVER_OPENED, start, Fields([], 100000, false, false, 0, 0, false, false))
  {
  }

  lemma WorkerShown(f: Format, start: GoodStore, history: seq<Step>, s: State, view: Store, x: Fields)
    requires Behind(f, start, history, s, view, x)
    ensures x.joinable == (s.worker != Absent) && x.looping == (s.worker != Absent && s.worker != Finished)
  {
  }

  /** The fields are those of the protocol state. */
  ghost predicate Shows(s: State, x: Fields) {
    && s.queue == x.queue && s.capacity == x.capacity && s.running == x.running && s.accepting == x.accepting
    && s.written == x.written && s.dropped == x.dropped
    && x.joinable == (s.worker != Absent) && x.looping == (s.worker != Absent && s.worker != Finished)
  }

  /**
   The history leads to the state, its events to the stream's files and open file, and the
   fields show the state.  The directory may hold other files, and another writer's.
   */
  ghost predicate Behind(f: Format, start: GoodStore, history: seq<Step>, state: State, view: Store, fields: Fields) {
    && start.file.NoFile? && Possible(f, start, history) && state == After(f, start, history)
    && ValidRun(f, state.events) && SameStream(f, view, Run(f, start, state.events)) && Shows(state, fields)
  }

  // ------------------------------------------------------------------ single steps

  /** One more step, which did to the directory what its events say. */
  lemma StepTaken(f: Format, start: GoodStore, history: seq<Step>, s: State, step: Step, left: seq<Event>,
                  view: GoodStore, x: Fields, y: Fields)
    requires Behind(f, start, history, s, view, x) && Enabled(f, start, s, step)
    requires Do(f, start, s, step).events == s.events + left && ValidRun(f, left) && Shows(Do(f, start, s, step), y)
    ensures Behind(f, start, history + [step], Do(f, start, s, step), Run(f, view, left), y)
  {
    hide Do, Enabled, Run, ValidRun, Shows, SameStream;
    assert (history + [step])[..|history|] == history;
    RunConcat(f, start, s.events, left);
    RunIsLocal(f, view, Run(f, start, s.events), left);
  }

  /** One more step that does nothing to the directory. */
  lemma StepTakenQuietly(f: Format, start: GoodStore, history: seq<Step>, s: State, step: Step, view: GoodStore,
                         x: Fields, y: Fields)
    requires Behind(f, start, history, s, view, x) && Enabled(f, start, s, step)
    requires Do(f, start, s, step).events == s.events && Shows(Do(f, start, s, step), y)
    ensures Behind(f, start, history + [step], Do(f, start, s, step), view, y)
  {
    hide Do, Enabled, Run, ValidRun, Shows, SameStream;
    assert (history + [step])[..|history|] == history;
  }

  lemma FieldsShown(f: Format, start: GoodStore, history: seq<Step>, s: State, view: Store, x: Fields)
    requires Behind(f, start, history, s, view, x)
    ensures Shows(s, x)
  {
  }

  lemma Started(f: Format, s0: GoodStore, s: State, capacity: nat)
    requires s.worker == Absent && s.closer == Idle && capacity > 0
    ensures Enabled(f, s0, s, Start(capacity))
    ensures var t := Do(f, s0, s, Start(capacity));
      && t.queue == s.queue && t.capacity == capacity && t.running && t.accepting
      && t.clean == s.clean && t.worker == Checking && t.closer == Idle && t.written == 0 == t.dropped && t.events == s.events
  {
  }

  lemma Offered(f: Format, s0: GoodStore, s: State, r: Record)
    requires IsRecord(f, r)
    ensures Enabled(f, s0, s, Offer(r))
    ensures var t := Do(f, s0, s, Offer(r));
      var takes := s.accepting && s.running && |s.queue| < s.capacity;
      && t.queue == s.queue + (if takes then [r] else [])
      && t.notifies == s.notifies + (if takes && s.queue == [] then 1 else 0)
      && t.dropped == s.dropped + (if s.accepting && s.running && !takes then 1 else 0)
      && SameBut(s, t) && t.written == s.written && t.worker == s.worker && t.events == s.events
  {
    hide IsRecord;
  }

  /** What most steps leave alone. */
  ghost predicate SameBut(s: State, t: State) {
    && t.capacity == s.capacity && t.running == s.running && t.accepting == s.accepting && t.closer == s.closer
    && t.clean == s.clean
  }

  lemma Notified(f: Format, s0: GoodStore, s: State)
    requires s.notifies > 0
    ensures Enabled(f, s0, s, NotifyOne)
    ensures Do(f, s0, s, NotifyOne) == s.(notifies := s.notifies - 1, worker := Woken(s.worker))
  {
  }

  lemma Checked(f: Format, s0: GoodStore, s: State)
    requires s.worker == Checking
    ensures Enabled(f, s0, s, Check)
    ensures var n := BatchSize(|s.queue|);
      Do(f, s0, s, Check) == s.(queue := s.queue[n..],
        worker := if s.queue != [] then Writing(s.queue[..n], 0) else if s.running then Waiting else Finished)
  {
    assert s.queue == [] ==> s.queue[0..] == s.queue;
  }

  lemma WroteOne(f: Format, s0: GoodStore, history: seq<Step>, s: State, view: GoodStore, x: Fields, w: Done)
    requires s.worker.Writing? && s.worker.done < |s.worker.batch| && Behind(f, s0, history, s, view, x)
    requires w.record == s.worker.batch[s.worker.done] && Allowed(f, view, w)
    ensures Enabled(f, s0, s, WriteOne(w.now, w.before))
    ensures var t := Do(f, s0, s, WriteOne(w.now, w.before));
      && t.worker == Writing(s.worker.batch, s.worker.done + 1) && t.events == s.events + EventsOf(w)
      && t.clean == (s.clean && w.before == []) && t.closer == s.closer
      && t.capacity == s.capacity && t.running == s.running && t.accepting == s.accepting
      && t.queue == s.queue && t.written == s.written && t.dropped == s.dropped
  {
    hide FileStore.WriteToFile, ValidEvent, Run, ValidRun, After, Possible, SameStream, Reopening;
    RunIsLocal(f, view, Run(f, s0, s.events), w.before);
    WritePart(f, Run(f, view, w.before), Run(f, Run(f, s0, s.events), w.before), w.record, w.now);
  }

  lemma FailedWrite(f: Format, s0: GoodStore, history: seq<Step>, s: State, view: GoodStore, x: Fields, left: seq<Event>)
    requires s.worker.Writing? && s.worker.done < |s.worker.batch| && Behind(f, s0, history, s, view, x)
    requires ValidRun(f, left) && Recorded(left) <= [s.worker.batch[s.worker.done]]
    requires Run(f, view, left).file.NoFile?
    ensures Enabled(f, s0, s, WriteFails(left))
    ensures Do(f, s0, s, WriteFails(left))
         == s.(worker := Broken(s.worker.batch, s.worker.done), events := s.events + left, clean := false)
  {
    hide Run, ValidRun, Recorded, After, Possible, SameFiles;
    RunIsLocal(f, view, Run(f, s0, s.events), left);
  }

  lemma Counting(f: Format, s0: GoodStore, s: State)
    requires s.worker.Broken? || (s.worker.Writing? && s.worker.done == |s.worker.batch|)
    ensures Enabled(f, s0, s, CountBatch)
    ensures Do(f, s0, s, CountBatch)
         == s.(written := s.written + s.worker.done,
               worker := Counted(s.worker.batch, s.worker.done, s.worker.Broken?))
  {
  }

  lemma Persisted(f: Format, s0: GoodStore, s: State)
    requires s.worker.Counted? && !s.worker.failed
    ensures Enabled(f, s0, s, PersistOk)
    ensures Do(f, s0, s, PersistOk) == s.(worker := Checking, events := s.events + [Event.Persist])
  {
  }

  lemma FailedPersist(f: Format, s0: GoodStore, history: seq<Step>, s: State, view: GoodStore, x: Fields, left: seq<Event>)
    requires s.worker.Counted? && !s.worker.failed && Behind(f, s0, history, s, view, x)
    requires ValidRun(f, left) && Recorded(left) == [] && Run(f, view, left).file.NoFile?
    ensures Enabled(f, s0, s, Step.PersistFails(left))
    ensures Do(f, s0, s, Step.PersistFails(left))
         == s.(worker := Counted(s.worker.batch, s.worker.done, true), events := s.events + left, clean := false)
  {
    hide Run, ValidRun, Recorded, After, Possible, SameFiles;
    RunIsLocal(f, view, Run(f, s0, s.events), left);
  }

  lemma Aborted(f: Format, s0: GoodStore, s: State)
    requires s.worker.Counted? && s.worker.failed && s.worker.done <= |s.worker.batch|
    ensures Enabled(f, s0, s, Abort)
    ensures var t := Do(f, s0, s, Abort);
      && t.worker == Finished && !t.running && !t.accepting && t.queue == []
      && t.dropped == s.dropped + (|s.worker.batch| - s.worker.done) + |s.queue|
      && t.capacity == s.capacity && t.closer == s.closer && t.clean == s.clean
      && t.written == s.written && t.events == s.events
  {
  }

  lemma Others(f: Format, s0: GoodStore, s: State)
    ensures s.worker == Waiting ==>
              Enabled(f, s0, s, SpuriousWake) && Do(f, s0, s, SpuriousWake) == s.(worker := Checking)
    ensures s.closer == Idle ==>
              (Enabled(f, s0, s, CloseBegin)
               && Do(f, s0, s, CloseBegin) == s.(accepting := false, running := false, closer := Notifying))
    ensures s.closer == Notifying ==>
              (Enabled(f, s0, s, NotifyAll)
               && Do(f, s0, s, NotifyAll) == s.(closer := Joining, worker := Woken(s.worker)))
  {
  }

  lemma Joined(f: Format, s0: GoodStore, history: seq<Step>, s: State, view: GoodStore, x: Fields,
               ok: bool, left: seq<Event>)
    requires s.closer == Joining && (s.worker == Finished || s.worker == Absent) && Behind(f, s0, history, s, view, x)
    requires ValidRun(f, left) && Recorded(left) == [] && Run(f, view, left).file.NoFile?
    requires ok ==> left == [Event.Close]
    ensures Enabled(f, s0, s, Join(ok, left))
    ensures Do(f, s0, s, Join(ok, left))
         == s.(closer := Idle, worker := Absent, events := s.events + left, clean := s.clean && ok)
  {
    hide Run, ValidRun, Recorded, After, Possible, SameFiles;
    RunIsLocal(f, view, Run(f, s0, s.events), left);
  }

  /** The fields after the failure section. */
  function AfterAbort(x: Fields, unwritten: nat): Fields {
    Fields([], x.capacity, false, false, x.written, x.dropped + unwritten + |x.queue|, x.joinable, false)
  }

  /** The fields after write(). */
  function AfterOffer(x: Fields, r: Record): Fields {
    if !x.accepting || !x.running then x
    else if |x.queue| >= x.capacity then x.(dropped := x.dropped + 1)
    else x.(queue := x.queue + [r])
  }

  lemma TakeStart(f: Format, start: GoodStore, history: seq<Step>, s: State, view: GoodStore, x: Fields, capacity: nat)
    returns (t: State)
    requires Behind(f, start, history, s, view, x)
    requires s.worker == Absent && s.closer == Idle && capacity > 0
    ensures Behind(f, start, history + [Start(capacity)], t, view,
                   Fields(x.queue, capacity, true, true, 0, 0, true, true))
    ensures t.worker == Checking && t.closer == s.closer && t.clean == s.clean
    ensures t.events == s.events
  {
    hide Do, Enabled, Behind, Run, ValidRun, IsRecord, Recorded, FileStore.WriteToFile, FilingTs, InRange;
    FieldsShown(f, start, history, s, view, x);
    Started(f, start, s, capacity);
    t := Do(f, start, s, Start(capacity));
    StepTakenQuietly(f, start, history, s, Start(capacity), view, x,
                     Fields(x.queue, capacity, true, true, 0, 0, true, true));
  }

  lemma TakeOffer(f: Format, start: GoodStore, history: seq<Step>, s: State, view: GoodStore, x: Fields, r: Record)
    returns (t: State)
    requires Behind(f, start, history, s, view, x)
    requires IsRecord(f, r)
    ensures Behind(f, start, history + [Offer(r)], t, view,
                   AfterOffer(x, r))
    ensures t.worker == s.worker && t.closer == s.closer && t.clean == s.clean
    ensures x.accepting && x.running && |x.queue| < x.capacity && x.queue == [] ==> t.notifies > 0
    ensures t.events == s.events
  {
    hide Do, Enabled, Behind, Run, ValidRun, IsRecord, Recorded, FileStore.WriteToFile, FilingTs, InRange;
    FieldsShown(f, start, history, s, view, x);
    Offered(f, start, s, r);
    t := Do(f, start, s, Offer(r));
    StepTakenQuietly(f, start, history, s, Offer(r), view, x,
                     AfterOffer(x, r));
  }

  lemma TakeNotify(f: Format, start: GoodStore, history: seq<Step>, s: State, view: GoodStore, x: Fields)
    returns (t: State)
    requires Behind(f, start, history, s, view, x)
    requires s.notifies > 0
    ensures Behind(f, start, history + [NotifyOne], t, view,
                   x)
    ensures t.worker == Woken(s.worker) && t.closer == s.closer && t.clean == s.clean
    ensures t.events == s.events
  {
    hide Do, Enabled, Behind, Run, ValidRun, IsRecord, Recorded, FileStore.WriteToFile, FilingTs, InRange;
    FieldsShown(f, start, history, s, view, x);
    Notified(f, start, s);
    t := Do(f, start, s, NotifyOne);
    StepTakenQuietly(f, start, history, s, NotifyOne, view, x,
                     x);
  }

  lemma TakeCheck(f: Format, start: GoodStore, history: seq<Step>, s: State, view: GoodStore, x: Fields)
    returns (t: State)
    requires Behind(f, start, history, s, view, x)
    requires s.worker == Checking
    ensures Behind(f, start, history + [Check], t, view,
                   x.(queue := x.queue[BatchSize(|x.queue|)..], looping := x.queue != [] || x.running))
    ensures t.worker == (if x.queue != [] then Writing(x.queue[..BatchSize(|x.queue|)], 0)
                         else if x.running then Waiting else Finished)
    ensures t.closer == s.closer && t.clean == s.clean
    ensures t.events == s.events
  {
    hide Do, Enabled, Behind, Run, ValidRun, IsRecord, Recorded, FileStore.WriteToFile, FilingTs, InRange;
    FieldsShown(f, start, history, s, view, x);
    Checked(f, start, s);
    t := Do(f, start, s, Check);
    StepTakenQuietly(f, start, history, s, Check, view, x,
                     x.(queue := x.queue[BatchSize(|x.queue|)..], looping := x.queue != [] || x.running));
  }

  lemma TakeWrite(f: Format, start: GoodStore, history: seq<Step>, s: State, view: GoodStore, x: Fields, w: Done)
    returns (t: State)
    requires Behind(f, start, history, s, view, x)
    requires s.worker.Writing? && s.worker.done < |s.worker.batch|
    requires w.record == s.worker.batch[s.worker.done] && Allowed(f, view, w) && ValidRun(f, EventsOf(w))
    ensures Behind(f, start, history + [WriteOne(w.now, w.before)], t, Run(f, view, EventsOf(w)), x)
    ensures t.worker == Writing(s.worker.batch, s.worker.done + 1) && t.closer == s.closer
    ensures t.clean == (s.clean && w.before == []) && t.events == s.events + EventsOf(w)
  {
    hide Do, Enabled, Behind, Run, ValidRun, Allowed, EventsOf;
    FieldsShown(f, start, history, s, view, x);
    WroteOne(f, start, history, s, view, x, w);
    t := Do(f, start, s, WriteOne(w.now, w.before));
    StepTaken(f, start, history, s, WriteOne(w.now, w.before), EventsOf(w), view, x, x);
  }

  lemma TakeWriteFails(f: Format, start: GoodStore, history: seq<Step>, s: State, view: GoodStore, x: Fields, left: seq<Event>)
    returns (t: State)
    requires Behind(f, start, history, s, view, x)
    requires s.worker.Writing? && s.worker.done < |s.worker.batch|
    requires ValidRun(f, left) && Recorded(left) <= [s.worker.batch[s.worker.done]] && Run(f, view, left).file.NoFile?
    ensures Behind(f, start, history + [WriteFails(left)], t, Run(f, view, left),
                   x)
    ensures t.worker == Broken(s.worker.batch, s.worker.done) && t.closer == s.closer && !t.clean
    ensures t.events == s.events + left
  {
    hide Do, Enabled, Behind, Run, ValidRun, IsRecord, Recorded, FileStore.WriteToFile, FilingTs, InRange;
    FieldsShown(f, start, history, s, view, x);
    FailedWrite(f, start, history, s, view, x, left);
    t := Do(f, start, s, WriteFails(left));
    StepTaken(f, start, history, s, WriteFails(left), left, view, x,
              x);
  }

  lemma TakeCount(f: Format, start: GoodStore, history: seq<Step>, s: State, view: GoodStore, x: Fields)
    returns (t: State)
    requires Behind(f, start, history, s, view, x)
    requires s.worker.Broken? || (s.worker.Writing? && s.worker.done == |s.worker.batch|)
    ensures Behind(f, start, history + [CountBatch], t, view,
                   x.(written := x.written + s.worker.done))
    ensures t.worker == Counted(s.worker.batch, s.worker.done, s.worker.Broken?) && t.closer == s.closer && t.clean == s.clean
    ensures t.events == s.events
  {
    hide Do, Enabled, Behind, Run, ValidRun, IsRecord, Recorded, FileStore.WriteToFile, FilingTs, InRange;
    FieldsShown(f, start, history, s, view, x);
    Counting(f, start, s);
    t := Do(f, start, s, CountBatch);
    StepTakenQuietly(f, start, history, s, CountBatch, view, x,
                     x.(written := x.written + s.worker.done));
  }

  lemma TakePersist(f: Format, start: GoodStore, history: seq<Step>, s: State, view: GoodStore, x: Fields)
    returns (t: State)
    requires Behind(f, start, history, s, view, x)
    requires s.worker.Counted? && !s.worker.failed && ValidRun(f, [Event.Persist])
    ensures Behind(f, start, history + [PersistOk], t, Run(f, view, [Event.Persist]),
                   x)
    ensures t.worker == Checking && t.closer == s.closer && t.clean == s.clean
    ensures t.events == s.events + [Event.Persist]
  {
    hide Do, Enabled, Behind, Run, ValidRun, IsRecord, Recorded, FileStore.WriteToFile, FilingTs, InRange;
    FieldsShown(f, start, history, s, view, x);
    Persisted(f, start, s);
    t := Do(f, start, s, PersistOk);
    StepTaken(f, start, history, s, PersistOk, [Event.Persist], view, x,
              x);
  }

  lemma TakePersistFails(f: Format, start: GoodStore, history: seq<Step>, s: State, view: GoodStore, x: Fields, left: seq<Event>)
    returns (t: State)
    requires Behind(f, start, history, s, view, x)
    requires s.worker.Counted? && !s.worker.failed
    requires ValidRun(f, left) && Recorded(left) == [] && Run(f, view, left).file.NoFile?
    ensures Behind(f, start, history + [Step.PersistFails(left)], t, Run(f, view, left),
                   x)
    ensures t.worker == Counted(s.worker.batch, s.worker.done, true) && t.closer == s.closer && !t.clean
    ensures t.events == s.events + left
  {
    hide Do, Enabled, Behind, Run, ValidRun, IsRecord, Recorded, FileStore.WriteToFile, FilingTs, InRange;
    FieldsShown(f, start, history, s, view, x);
    FailedPersist(f, start, history, s, view, x, left);
    t := Do(f, start, s, Step.PersistFails(left));
    StepTaken(f, start, history, s, Step.PersistFails(left), left, view, x,
              x);
  }

  lemma TakeAbort(f: Format, start: GoodStore, history: seq<Step>, s: State, view: GoodStore, x: Fields)
    returns (t: State)
    requires Behind(f, start, history, s, view, x)
    requires s.worker.Counted? && s.worker.failed && s.worker.done <= |s.worker.batch|
    ensures Behind(f, start, history + [Abort], t, view,
                   AfterAbort(x, |s.worker.batch| - s.worker.done))
    ensures t.worker == Finished && t.closer == s.closer && t.clean == s.clean
    ensures t.events == s.events
  {
    hide Do, Enabled, Behind, Run, ValidRun, IsRecord, Recorded, FileStore.WriteToFile, FilingTs, InRange;
    FieldsShown(f, start, history, s, view, x);
    Aborted(f, start, s);
    t := Do(f, start, s, Abort);
    StepTakenQuietly(f, start, history, s, Abort, view, x,
                     AfterAbort(x, |s.worker.batch| - s.worker.done));
  }

  lemma TakeSpurious(f: Format, start: GoodStore, history: seq<Step>, s: State, view: GoodStore, x: Fields)
    returns (t: State)
    requires Behind(f, start, history, s, view, x)
    requires s.worker == Waiting
    ensures Behind(f, start, history + [SpuriousWake], t, view,
                   x)
    ensures t.worker == Checking && t.closer == s.closer && t.clean == s.clean
    ensures t.events == s.events
  {
    hide Do, Enabled, Behind, Run, ValidRun, IsRecord, Recorded, FileStore.WriteToFile, FilingTs, InRange;
    FieldsShown(f, start, history, s, view, x);
    Others(f, start, s);
    t := Do(f, start, s, SpuriousWake);
    StepTakenQuietly(f, start, history, s, SpuriousWake, view, x,
                     x);
  }

  lemma TakeCloseBegin(f: Format, start: GoodStore, history: seq<Step>, s: State, view: GoodStore, x: Fields)
    returns (t: State)
    requires Behind(f, start, history, s, view, x)
    requires s.closer == Idle
    ensures Behind(f, start, history + [CloseBegin], t, view,
                   x.(running := false, accepting := false))
    ensures t.worker == s.worker && t.closer == Notifying && t.clean == s.clean
    ensures t.events == s.events
  {
    hide Do, Enabled, Behind, Run, ValidRun, IsRecord, Recorded, FileStore.WriteToFile, FilingTs, InRange;
    FieldsShown(f, start, history, s, view, x);
    Others(f, start, s);
    t := Do(f, start, s, CloseBegin);
    StepTakenQuietly(f, start, history, s, CloseBegin, view, x,
                     x.(running := false, accepting := false));
  }

  lemma TakeNotifyAll(f: Format, start: GoodStore, history: seq<Step>, s: State, view: GoodStore, x: Fields)
    returns (t: State)
    requires Behind(f, start, history, s, view, x)
    requires s.closer == Notifying
    ensures Behind(f, start, history + [NotifyAll], t, view,
                   x)
    ensures t.worker == Woken(s.worker) && t.closer == Joining && t.clean == s.clean
    ensures t.events == s.events
  {
    hide Do, Enabled, Behind, Run, ValidRun, IsRecord, Recorded, FileStore.WriteToFile, FilingTs, InRange;
    FieldsShown(f, start, history, s, view, x);
    Others(f, start, s);
    t := Do(f, start, s, NotifyAll);
    StepTakenQuietly(f, start, history, s, NotifyAll, view, x,
                     x);
  }

  lemma TakeJoin(f: Format, start: GoodStore, history: seq<Step>, s: State, view: GoodStore, x: Fields,
                 ok: bool, left: seq<Event>)
    returns (t: State)
    requires Behind(f, start, history, s, view, x)
    requires s.closer == Joining && (s.worker == Finished || s.worker == Absent)
    requires ValidRun(f, left) && Recorded(left) == [] && Run(f, view, left).file.NoFile? && (ok ==> left == [Event.Close])
    ensures Behind(f, start, history + [Join(ok, left)], t, Run(f, view, left),
                   x.(joinable := false))
    ensures t.worker == Absent && t.closer == Idle && t.clean == (s.clean && ok)
    ensures t.events == s.events + left
  {
    hide Do, Enabled, Behind, Run, ValidRun, IsRecord, Recorded, FileStore.WriteToFile, FilingTs, InRange;
    FieldsShown(f, start, history, s, view, x);
    Joined(f, start, history, s, view, x, ok, left);
    t := Do(f, start, s, Join(ok, left));
    StepTaken(f, start, history, s, Join(ok, left), left, view, x,
              x.(joinable := false));
  }

  // ------------------------------------------------------------------ whole batches

  /** What writing one record did, and what writing several did. */
  function EventsOf(w: Done): seq<Event> {
    w.before + [Event.Write(w.record, w.now)]
  }

  function AllEvents(ws: seq<Done>): seq<Event> {
    if ws == [] then [] else AllEvents(ws[..|ws| - 1]) + EventsOf(ws[|ws| - 1])
  }

  /** Opening files did nothing out of the ordinary. */
  predicate Calm(ws: seq<Done>) {
    forall i :: 0 <= i < |ws| ==> ws[i].before == []
  }

  function WriteSteps(ws: seq<Done>): (steps: seq<Step>)
    ensures |steps| == |ws|
  {
    if ws == [] then [] else
      WriteSteps(ws[..|ws| - 1]) + [WriteOne(ws[|ws| - 1].now, ws[|ws| - 1].before)]
  }

  lemma GoesProper(f: Format, s: GoodStore, ws: seq<Done>)
    requires Goes(f, s, ws)
    ensures Proper(f, ws)
    ensures ws != [] ==> Proper(f, ws[..|ws| - 1])
  {
    hide AfterWrites, Allowed, ValidEvent, ValidRun;
  }

  /** The last of a list of writes, apart from the others. */
  lemma LastWrite(f: Format, s: GoodStore, ws: seq<Done>)
    requires ws != [] && Proper(f, ws) && Proper(f, ws[..|ws| - 1]) && Goes(f, s, ws)
    ensures Goes(f, s, ws[..|ws| - 1]) && Allowed(f, AfterWrites(f, s, ws[..|ws| - 1]), ws[|ws| - 1])
    ensures ValidRun(f, EventsOf(ws[|ws| - 1]))
    ensures AfterWrites(f, s, ws) == Run(f, AfterWrites(f, s, ws[..|ws| - 1]), EventsOf(ws[|ws| - 1]))
  {
    hide FileStore.WriteToFile, ValidEvent, Reopening, Run, ValidRun;
    var n := |ws| - 1;
    var w, before := ws[n], AfterWrites(f, s, ws[..n]);
    assert Allowed(f, before, w);
    OneEventRun(f, Run(f, before, w.before), Event.Write(w.record, w.now));
    RunConcat(f, before, w.before, [Event.Write(w.record, w.now)]);
    forall i | 0 <= i < n ensures Allowed(f, AfterWrites(f, s, ws[..n][..i]), ws[..n][i]) {
      assert ws[..n][..i] == ws[..i];
    }
  }

  /** Writing records is a run of their events. */
  lemma {:induction false} WritesAreRun(f: Format, s: GoodStore, ws: seq<Done>)
    requires Goes(f, s, ws)
    ensures ValidRun(f, AllEvents(ws)) && AfterWrites(f, s, ws) == Run(f, s, AllEvents(ws))
    ensures Calm(ws) ==> AllHarmless(AllEvents(ws))
  {
    hide Run, ValidRun, Goes, AfterWrites, Allowed;
    GoesProper(f, s, ws);
    if ws == [] {
      EmptyRun(f, s);
      NothingWritten(f, s);
    } else {
      LastWrite(f, s, ws);
      WritesAreRun(f, s, ws[..|ws| - 1]);
      RunConcat(f, s, AllEvents(ws[..|ws| - 1]), EventsOf(ws[|ws| - 1]));
    }
  }

  /** Records of a batch, written from its first on. */
  lemma {:induction false} WritesRefine(f: Format, start: GoodStore, history: seq<Step>, s: State, view: GoodStore,
                                        x: Fields, ws: seq<Done>) returns (t: State)
    requires Behind(f, start, history, s, view, x) && s.worker.Writing? && s.worker.done == 0
    requires |ws| <= |s.worker.batch| && Goes(f, view, ws)
    requires forall i :: 0 <= i < |ws| ==> ws[i].record == s.worker.batch[i]
    ensures Behind(f, start, history + WriteSteps(ws), t, AfterWrites(f, view, ws), x)
    ensures t.worker == Writing(s.worker.batch, |ws|) && t.closer == s.closer && t.clean == (s.clean && Calm(ws))
    ensures t.events == s.events + AllEvents(ws)
  {
    hide Behind, Run, ValidRun, Goes, AfterWrites, Allowed, EventsOf;
    GoesProper(f, view, ws);
    if ws == [] {
      t := s;
      NothingWritten(f, view);
      assert history + WriteSteps(ws) == history && s.events + AllEvents(ws) == s.events;
    } else {
      var n, w := |ws| - 1, ws[|ws| - 1];
      LastWrite(f, view, ws);
      var u := WritesRefine(f, start, history, s, view, x, ws[..n]);
      t := TakeWrite(f, start, history + WriteSteps(ws[..n]), u, AfterWrites(f, view, ws[..n]), x, w);
      assert history + WriteSteps(ws[..n]) + [WriteOne(w.now, w.before)] == history + WriteSteps(ws);
      assert Calm(ws) <==> Calm(ws[..n]) && w.before == [];
    }
  }

  lemma DrainedFields(f: Format, s: GoodStore, x: Fields, turns: seq<Turn>, ws: seq<Done>, left: seq<Event>,
                      failed: bool, t: Store, y: Fields)
    requires Drained(f, s, x, turns, ws, left, failed, t, y)
    ensures var n := BatchSize(|x.queue|);
      && |ws| <= n <= |turns| && 0 < n && Matches(ws, x.queue[..n], turns) && Goes(f, s, ws) && ValidRun(f, left)
      && t == Run(f, AfterWrites(f, s, ws), left)
      && (!failed ==> |ws| == n && left == [Event.Persist] && y == x.(queue := x.queue[n..], written := x.written + n))
      && (failed ==> y == x.(queue := [], running := false, accepting := false, looping := false,
                             written := x.written + |ws|, dropped := x.dropped + (|x.queue| - |ws|)))
  {
    hide Goes, Run, ValidRun, AfterWrites, Recorded, Matches;
  }

  /** The fields once the batch is taken. */
  function Taken(x: Fields): Fields {
    x.(queue := x.queue[BatchSize(|x.queue|)..])
  }

  /** Taking a batch and writing some of its records. */
  lemma TakenAndWritten(f: Format, start: GoodStore, history: seq<Step>, s: State, view: GoodStore, x: Fields,
                        turns: seq<Turn>, ws: seq<Done>) returns (t: State)
    requires Behind(f, start, history, s, view, x) && s.worker == Checking && x.queue != []
    requires Matches(ws, x.queue[..BatchSize(|x.queue|)], turns) && Goes(f, view, ws)
    ensures Behind(f, start, history + ([Check] + WriteSteps(ws)), t, AfterWrites(f, view, ws), Taken(x))
    ensures t.worker == Writing(x.queue[..BatchSize(|x.queue|)], |ws|) && t.closer == s.closer
    ensures t.clean == (s.clean && Calm(ws)) && t.events == s.events + AllEvents(ws)
  {
    hide Behind, Run, ValidRun, Goes, AfterWrites, WriteSteps, AllEvents, Calm;
    WorkerShown(f, start, history, s, view, x);
    t := TakeCheck(f, start, history, s, view, x);
    t := WritesRefine(f, start, history + [Check], t, view, Taken(x), ws);
    assert history + [Check] + WriteSteps(ws) == history + ([Check] + WriteSteps(ws));
  }

  lemma StopsAtWrite(f: Format, start: GoodStore, h: seq<Step>, s: State, view: GoodStore, x: Fields, left: seq<Event>)
    returns (t: State)
    requires Behind(f, start, h, s, view, x) && s.worker.Writing? && s.worker.done < |s.worker.batch|
    requires ValidRun(f, left) && Recorded(left) <= [s.worker.batch[s.worker.done]] && Run(f, view, left).file.NoFile?
    ensures Behind(f, start, h + [WriteFails(left), CountBatch, Abort], t, Run(f, view, left),
                   Fields([], x.capacity, false, false, x.written + s.worker.done,
                          x.dropped + (|s.worker.batch| - s.worker.done) + |x.queue|, x.joinable, false))
    ensures t.worker == Finished && t.closer == s.closer
    ensures t.events == s.events + left
  {
    hide Behind, Run, ValidRun, Recorded;
    var after := Run(f, view, left);
    t := TakeWriteFails(f, start, h, s, view, x, left);
    t := TakeCount(f, start, h + [WriteFails(left)], t, after, x);
    t := TakeAbort(f, start, h + [WriteFails(left)] + [CountBatch], t, after, x.(written := x.written + s.worker.done));
    assert h + [WriteFails(left)] + [CountBatch] + [Abort] == h + [WriteFails(left), CountBatch, Abort];
  }

  lemma StopsAtCount(f: Format, start: GoodStore, h: seq<Step>, s: State, view: GoodStore, x: Fields, left: seq<Event>)
    returns (t: State)
    requires Behind(f, start, h, s, view, x) && s.worker.Writing? && s.worker.done == |s.worker.batch|
    requires ValidRun(f, left) && Recorded(left) == [] && Run(f, view, left).file.NoFile?
    ensures Behind(f, start, h + [CountBatch, Step.PersistFails(left), Abort], t, Run(f, view, left),
                   Fields([], x.capacity, false, false, x.written + s.worker.done, x.dropped + |x.queue|, x.joinable, false))
    ensures t.worker == Finished && t.closer == s.closer
    ensures t.events == s.events + left
  {
    hide Behind, Run, ValidRun, Recorded;
    var y := x.(written := x.written + s.worker.done);
    t := TakeCount(f, start, h, s, view, x);
    t := TakePersistFails(f, start, h + [CountBatch], t, view, y, left);
    t := TakeAbort(f, start, h + [CountBatch] + [Step.PersistFails(left)], t, Run(f, view, left), y);
    assert h + [CountBatch] + [Step.PersistFails(left)] + [Abort] == h + [CountBatch, Step.PersistFails(left), Abort];
  }

  lemma EndsWell(f: Format, start: GoodStore, h: seq<Step>, s: State, view: GoodStore, x: Fields) returns (t: State)
    requires Behind(f, start, h, s, view, x) && s.worker.Writing? && s.worker.done == |s.worker.batch|
    requires ValidRun(f, [Event.Persist])
    ensures Behind(f, start, h + [CountBatch, PersistOk], t, Run(f, view, [Event.Persist]),
                   x.(written := x.written + s.worker.done))
    ensures t.worker == Checking && t.closer == s.closer && t.clean == s.clean
    ensures t.events == s.events + [Event.Persist]
  {
    hide Behind, Run, ValidRun;
    t := TakeCount(f, start, h, s, view, x);
    t := TakePersist(f, start, h + [CountBatch], t, view, x.(written := x.written + s.worker.done));
    assert h + [CountBatch] + [PersistOk] == h + [CountBatch, PersistOk];
  }

  /** Draining a batch is a run of the worker's steps, whether it ends well or in a failure. */
  lemma DrainRefines(f: Format, start: GoodStore, history: seq<Step>, s: State, view: GoodStore, x: Fields,
                     turns: seq<Turn>, ws: seq<Done>, left: seq<Event>, failed: bool, view': Store, y: Fields)
    returns (steps: seq<Step>, t: State)
    requires Behind(f, start, history, s, view, x) && s.worker == Checking
    requires Drained(f, view, x, turns, ws, left, failed, view', y)
    ensures Behind(f, start, history + steps, t, view', y) && t.closer == s.closer
    ensures t.worker == (if failed then Finished else Checking) && (!failed ==> t.clean == (s.clean && Calm(ws)))
    ensures steps == [Check] + WriteSteps(ws) + LastSteps(failed, |ws| == BatchSize(|x.queue|), left)
    ensures t.events == s.events + (AllEvents(ws) + left)
  {
    hide Behind, Run, ValidRun, Goes, AfterWrites, WriteSteps, AllEvents, Calm, Recorded, Matches;
    DrainedFields(f, view, x, turns, ws, left, failed, view', y);
    t := TakenAndWritten(f, start, history, s, view, x, turns, ws);
    GoesProper(f, view, ws);
    var mid, h := AfterWrites(f, view, ws), history + ([Check] + WriteSteps(ws));
    if !failed {
      t := EndsWell(f, start, h, t, mid, Taken(x));
    } else if |ws| < BatchSize(|x.queue|) {
      t := StopsAtWrite(f, start, h, t, mid, Taken(x), left);
    } else {
      t := StopsAtCount(f, start, h, t, mid, Taken(x), left);
    }
    steps := [Check] + WriteSteps(ws) + LastSteps(failed, |ws| == BatchSize(|x.queue|), left);
    assert history + steps == h + LastSteps(failed, |ws| == BatchSize(|x.queue|), left);
  }

  /** How a turn ends. */
  function LastSteps(failed: bool, whole: bool, left: seq<Event>): seq<Step> {
    if !failed then [CountBatch, PersistOk]
    else if whole then [CountBatch, Step.PersistFails(left), Abort]
    else [WriteFails(left), CountBatch, Abort]
  }
}
