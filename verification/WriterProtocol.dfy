/**
 The concurrent side of src/storage/binary_record_writer.h: any number of producers,
 the worker thread and close(), as a state machine over their critical sections.

 Every step is one mutex section, one notification or one file operation; an
 interleaving is any sequence of enabled steps.  File operations may fail at any time.
 Producers notify only when they found the queue empty, and they do so after leaving
 the mutex, so a notification can be delayed behind anything else.
 */
module WriterProtocol {
  import opened RecordFormat
  import opened RecordIntegrity
  import opened FileStore
  import opened StoreHistory
  import opened Options

  const BATCH_LIMIT: nat := 1024

  datatype Worker =
    | Absent                                                // no thread, or already joined
    | Checking                                              // about to evaluate the wait predicate
    | Waiting                                               // blocked on the condition variable
    | Writing(batch: seq<Record>, done: nat)                // writing batch[done..]
    | Broken(batch: seq<Record>, done: nat)                 // batch[done] could not be written
    | Counted(batch: seq<Record>, done: nat, failed: bool)  // records_written_ updated
    | Finished                                              // left the loop, not yet joined

  datatype Closer = Idle | Notifying | Joining

  datatype State = State(
    queue: seq<Record>, capacity: nat, running: bool, accepting: bool,
    worker: Worker, closer: Closer, notifies: nat,
    written: nat, dropped: nat,
    // history of the session: calls that found the writer accepting, and where records went
    offered: nat, accepted: seq<Record>, handed: seq<Record>, lost: seq<Record>,
    // history of earlier sessions, file operations since the start, and whether all succeeded
    acceptedBefore: seq<Record>, handedBefore: seq<Record>, events: seq<Event>, clean: bool)

  datatype Step =
    | Offer(record: Record)        // write(): the critical section
    | NotifyOne                    // write(): cv_.notify_one() after the section
    | SpuriousWake
    | Check                        // worker: wait predicate, exit or take a batch
    | WriteOne(now: int, before: seq<Event>)   // worker: write_to_file succeeded, after what reopening did
    | WriteFails(left: seq<Event>) // worker: write_to_file failed, leaving this behind
    | CountBatch                   // worker: records_written_ += written
    | PersistOk                    // worker: persist_header_count succeeded
    | PersistFails(left: seq<Event>)
    | Abort                        // worker: failure section
    | CloseBegin                   // close(): clear the flags
    | NotifyAll
    | Join(ok: bool, left: seq<Event>)   // close(): join, then close_current_file
    | Start(newCapacity: nat)      // open()

  const NEVER_OPENED := State([], 100000, false, false, Absent, Idle, 0, 0, 0, 0, [], [], [], [], [], [], true)

  /**
   What reopening the hour's file may do without an error: nothing but repair it, stop
   that repair at a slot that cannot be read, or take the file for missing.
   */
  ghost predicate Reopening(f: Format, r: Record, now: int, before: seq<Event>) {
    IsRecord(f, r) &&
    var name := FileFor(f, r, now);
    || before == []
    || before == [Close, Erase(name)]
    || exists readable :: before == [Close, Repair(name, readable)]
  }

  /** The directory lets the write through. */
  ghost predicate WriteSucceeds(f: Format, s0: GoodStore, s: State, r: Record, now: int, before: seq<Event>) {
    && ValidEvent(f, Write(r, now)) && Reopening(f, r, now, before) && ValidRun(f, s.events) && ValidRun(f, before)
    && WriteToFile(f, Run(f, Run(f, s0, s.events), before), r, now).ok
  }

  /**
   What a failed file operation may leave behind: the file is no longer usable, any part
   of the buffered bytes reached it, and at most the given records are among them.
   */
  ghost predicate Leaves(f: Format, s0: GoodStore, s: State, left: seq<Event>, records: seq<Record>) {
    && ValidRun(f, left) && Recorded(left) <= records
    && ValidRun(f, s.events) && Run(f, Run(f, s0, s.events), left).file.NoFile?
  }

  ghost predicate Enabled(f: Format, s0: GoodStore, s: State, step: Step) {
    match step
    case Offer(r) => IsRecord(f, r)
    case NotifyOne => s.notifies > 0
    case SpuriousWake => s.worker == Waiting
    case Check => s.worker == Checking
    case WriteOne(now, before) =>
      s.worker.Writing? && s.worker.done < |s.worker.batch|
      && WriteSucceeds(f, s0, s, s.worker.batch[s.worker.done], now, before)
    case WriteFails(left) =>
      s.worker.Writing? && s.worker.done < |s.worker.batch|
      && Leaves(f, s0, s, left, [s.worker.batch[s.worker.done]])
    case CountBatch => s.worker.Broken? || (s.worker.Writing? && s.worker.done == |s.worker.batch|)
    case PersistOk => s.worker.Counted? && !s.worker.failed
    case PersistFails(left) => s.worker.Counted? && !s.worker.failed && Leaves(f, s0, s, left, [])
    case Abort => s.worker.Counted? && s.worker.failed
    case CloseBegin => s.closer == Idle
    case NotifyAll => s.closer == Notifying
    case Join(ok, left) =>
      s.closer == Joining && (s.worker == Finished || s.worker == Absent)
      && (if ok then left == [Close] else Leaves(f, s0, s, left, []))
    case Start(capacity) => s.worker == Absent && s.closer == Idle && capacity > 0
  }

  function Woken(w: Worker): Worker {
    if w == Waiting then Checking else w
  }

  function BatchSize(n: nat): nat {
    if n < BATCH_LIMIT then n else BATCH_LIMIT
  }

  ghost function Do(f: Format, s0: GoodStore, s: State, step: Step): State
    requires Enabled(f, s0, s, step)
  {
    match step
    case Offer(r) =>
      if !s.accepting || !s.running then s
      else if |s.queue| >= s.capacity then s.(offered := s.offered + 1, dropped := s.dropped + 1)
      else s.(offered := s.offered + 1, queue := s.queue + [r], accepted := s.accepted + [r],
              notifies := s.notifies + if s.queue == [] then 1 else 0)
    case NotifyOne => s.(notifies := s.notifies - 1, worker := Woken(s.worker))
    case SpuriousWake => s.(worker := Checking)
    case Check =>
      if s.running && s.queue == [] then s.(worker := Waiting)
      else if s.queue == [] then s.(worker := Finished)
      else var n := BatchSize(|s.queue|); s.(queue := s.queue[n..], worker := Writing(s.queue[..n], 0))
    case WriteOne(now, before) =>
      var r := s.worker.batch[s.worker.done];
      s.(worker := Writing(s.worker.batch, s.worker.done + 1), handed := s.handed + [r],
         events := s.events + (before + [Write(r, now)]), clean := s.clean && before == [])
    case WriteFails(left) =>
      s.(worker := Broken(s.worker.batch, s.worker.done), events := s.events + left, clean := false)
    case CountBatch =>
      s.(written := s.written + s.worker.done, worker := Counted(s.worker.batch, s.worker.done, s.worker.Broken?))
    case PersistOk => s.(worker := Checking, events := s.events + [Persist])
    case PersistFails(left) =>
      s.(worker := Counted(s.worker.batch, s.worker.done, true), events := s.events + left, clean := false)
    case Abort =>
      var rest := if s.worker.done <= |s.worker.batch| then s.worker.batch[s.worker.done..] else [];
      s.(accepting := false, running := false, dropped := s.dropped + |rest| + |s.queue|,
         queue := [], lost := rest + s.queue, worker := Finished)
    case CloseBegin => s.(accepting := false, running := false, closer := Notifying)
    case NotifyAll => s.(closer := Joining, worker := Woken(s.worker))
    case Join(ok, left) => s.(closer := Idle, worker := Absent, events := s.events + left, clean := s.clean && ok)
    case Start(capacity) =>
      s.(capacity := capacity, running := true, accepting := true, worker := Checking,
         written := 0, dropped := 0, offered := 0,
         acceptedBefore := s.acceptedBefore + s.accepted, handedBefore := s.handedBefore + s.handed,
         accepted := [], handed := [], lost := [])
  }

  // ------------------------------------------------------------------ the invariant

  /** Records taken from the queue and not yet handed to the file. */
  function InFlight(w: Worker): seq<Record> {
    match w
    case Writing(batch, done) => if done <= |batch| then batch[done..] else []
    case Broken(batch, done) => if done <= |batch| then batch[done..] else []
    case Counted(batch, done, _) => if done <= |batch| then batch[done..] else []
    case _ => []
  }

  /** Records written in the current batch but not yet counted. */
  function Uncounted(w: Worker): nat {
    match w
    case Writing(_, done) => done
    case Broken(_, done) => done
    case _ => 0
  }

  function Recorded(es: seq<Event>): seq<Record> {
    if es == [] then [] else
      Recorded(es[..|es| - 1]) + if es[|es| - 1].Write? then [es[|es| - 1].record] else []
  }

  lemma {:induction false} RecordedConcat(a: seq<Event>, b: seq<Event>)
    ensures Recorded(a + b) == Recorded(a) + Recorded(b)
  {
    if b == [] {
      assert a + b == a;
    } else {
      var n := |b| - 1;
      RecordedConcat(a, b[..n]);
      assert (a + b)[..|a + b| - 1] == a + b[..n];
    }
  }

  lemma EmptyRun(f: Format, s: GoodStore)
    ensures ValidRun(f, []) && Run(f, s, []) == s && Recorded([]) == []
  {
  }

  lemma OneEventRun(f: Format, s: GoodStore, e: Event)
    requires ValidEvent(f, e)
    ensures ValidRun(f, [e]) && Run(f, s, [e]) == Apply(f, s, e).store
    ensures Recorded([e]) == if e.Write? then [e.record] else []
  {
    hide Apply, ValidEvent;
    assert [e][..0] == [];
  }

  lemma TwoEventsRun(f: Format, s: GoodStore, d: Event, e: Event)
    requires ValidEvent(f, d) && ValidEvent(f, e)
    ensures ValidRun(f, [d, e]) && Run(f, s, [d, e]) == Apply(f, Apply(f, s, d).store, e).store
    ensures Recorded([d, e]) == (if d.Write? then [d.record] else []) + if e.Write? then [e.record] else []
  {
    hide Apply, ValidEvent;
    OneEventRun(f, s, d);
    OneEventRun(f, Run(f, s, [d]), e);
    RunConcat(f, s, [d], [e]);
    RecordedConcat([d], [e]);
    assert [d] + [e] == [d, e];
  }

  lemma CloseEvents(f: Format, s: GoodStore)
    ensures ValidRun(f, [Event.Close]) && Run(f, s, [Event.Close]) == FileStore.CloseCurrentFile(s)
    ensures Recorded([Event.Close]) == []
    ensures FileStore.CloseCurrentFile(s).file.NoFile? && (s.file.NoFile? ==> FileStore.CloseCurrentFile(s) == s)
  {
    OneEventRun(f, s, Event.Close);
  }

  ghost predicate QueueInv(s: State) {
    && |s.queue| <= s.capacity
    && s.accepting == s.running
    && (s.closer != Idle ==> !s.running)
    && (s.worker == Absent || s.worker == Finished ==> !s.running && s.queue == [])
    && (s.worker.Writing? ==> 0 < |s.worker.batch| <= BATCH_LIMIT && s.worker.done <= |s.worker.batch|)
    && (s.worker.Broken? ==> s.worker.done < |s.worker.batch| <= BATCH_LIMIT)
    && (s.worker.Counted? ==> 0 < |s.worker.batch| && s.worker.done <= |s.worker.batch|)
    && (s.worker.Counted? && !s.worker.failed ==> s.worker.done == |s.worker.batch|)
  }

  /** No lost wakeup: work for a sleeping worker always comes with a notification under way. */
  ghost predicate WakeInv(s: State) {
    s.worker == Waiting && (s.queue != [] || !s.running) ==> s.notifies > 0 || s.closer == Notifying
  }

  ghost predicate FlowInv(s: State) {
    && s.accepted == s.handed + (s.lost + (InFlight(s.worker) + s.queue))
    && (s.lost != [] ==> !s.running && s.queue == [] && (s.worker == Finished || s.worker == Absent))
    && s.offered + |s.lost| == |s.accepted| + s.dropped
    && s.written + Uncounted(s.worker) == |s.handed|
  }

  /** The directory is at every moment that of the events so far, failures included. */
  ghost predicate DirectoryInv(f: Format, s0: GoodStore, s: State) {
    ValidRun(f, s.events) && (s.worker == Absent ==> Run(f, s0, s.events).file.NoFile?)
  }

  ghost predicate HistoryInv(f: Format, s0: GoodStore, s: State) {
    s.clean ==>
      && s.lost == [] && !s.worker.Broken? && !(s.worker.Counted? && s.worker.failed)
      && s.acceptedBefore == s.handedBefore
      && ValidRun(f, s.events) && CrashFree(s.events) && AllWritesOk(f, s0, s.events)
      && Recorded(s.events) == s.handedBefore + s.handed
  }

  ghost predicate Inv(f: Format, s0: GoodStore, s: State) {
    QueueInv(s) && WakeInv(s) && FlowInv(s) && HistoryInv(f, s0, s) && DirectoryInv(f, s0, s)
  }

  lemma QueueStep(f: Format, s0: GoodStore, s: State, step: Step)
    requires QueueInv(s) && WakeInv(s) && Enabled(f, s0, s, step)
    ensures QueueInv(Do(f, s0, s, step)) && WakeInv(Do(f, s0, s, step))
  {
    hide WriteSucceeds, Leaves, ValidEvent, IsRecord;
  }

  lemma FlowOffer(f: Format, s0: GoodStore, s: State, r: Record)
    requires QueueInv(s) && FlowInv(s) && Enabled(f, s0, s, Offer(r))
    ensures FlowInv(Do(f, s0, s, Offer(r)))
  {
    hide WriteSucceeds, Leaves, ValidEvent, IsRecord;
    assert s.handed + (s.lost + (InFlight(s.worker) + s.queue)) + [r]
        == s.handed + (s.lost + (InFlight(s.worker) + (s.queue + [r])));
  }

  lemma FlowCheck(f: Format, s0: GoodStore, s: State)
    requires QueueInv(s) && FlowInv(s) && Enabled(f, s0, s, Check)
    ensures FlowInv(Do(f, s0, s, Check))
  {
    hide WriteSucceeds, Leaves, ValidEvent, IsRecord;
    assert s.lost == [] && InFlight(s.worker) == [];
    if s.queue != [] {
      var n := BatchSize(|s.queue|);
      assert s.queue[..n][0..] + s.queue[n..] == s.queue;
      assert InFlight(Writing(s.queue[..n], 0)) == s.queue[..n];
    }
  }

  lemma FlowWrite(f: Format, s0: GoodStore, s: State, now: int, before: seq<Event>)
    requires QueueInv(s) && FlowInv(s) && Enabled(f, s0, s, WriteOne(now, before))
    ensures FlowInv(Do(f, s0, s, WriteOne(now, before)))
  {
    hide WriteSucceeds, Leaves, ValidEvent, IsRecord;
    OneRecordOn(s.handed, s.worker.batch, s.worker.done, s.queue);
  }

  lemma OneRecordOn(handed: seq<Record>, batch: seq<Record>, done: nat, queue: seq<Record>)
    requires done < |batch|
    ensures handed + ([] + (batch[done..] + queue)) == (handed + [batch[done]]) + ([] + (batch[done + 1..] + queue))
  {
    assert batch[done..] == [batch[done]] + batch[done + 1..];
  }

  lemma FlowAbort(f: Format, s0: GoodStore, s: State)
    requires QueueInv(s) && FlowInv(s) && Enabled(f, s0, s, Abort)
    ensures FlowInv(Do(f, s0, s, Abort))
  {
    hide WriteSucceeds, Leaves, ValidEvent, IsRecord;
    var rest := InFlight(s.worker);
    assert s.handed + ([] + (rest + s.queue)) == s.handed + ((rest + s.queue) + ([] + []));
  }

  lemma FlowStep(f: Format, s0: GoodStore, s: State, step: Step)
    requires QueueInv(s) && FlowInv(s) && Enabled(f, s0, s, step)
    ensures FlowInv(Do(f, s0, s, step))
  {
    hide WriteSucceeds, Leaves, ValidEvent, IsRecord;
    match step
    case Offer(r) => FlowOffer(f, s0, s, r);
    case Check => FlowCheck(f, s0, s);
    case WriteOne(now, before) => FlowWrite(f, s0, s, now, before);
    case Abort => FlowAbort(f, s0, s);
    case _ => FlowOthers(f, s0, s, step);
  }

  lemma FlowOthers(f: Format, s0: GoodStore, s: State, step: Step)
    requires QueueInv(s) && FlowInv(s) && Enabled(f, s0, s, step)
    requires !step.Offer? && !step.Check? && !step.WriteOne? && !step.Abort?
    ensures FlowInv(Do(f, s0, s, step))
  {
    hide WriteSucceeds, Leaves, ValidEvent, IsRecord;
  }

  lemma {:induction false} AddedEvent(f: Format, s0: GoodStore, es: seq<Event>, e: Event)
    requires ValidRun(f, es) && CrashFree(es) && AllWritesOk(f, s0, es)
    requires ValidEvent(f, e) && Ordinary(e) && Apply(f, Run(f, s0, es), e).ok
    ensures var more := es + [e];
      && ValidRun(f, more) && CrashFree(more) && AllWritesOk(f, s0, more)
      && Run(f, s0, more) == Apply(f, Run(f, s0, es), e).store
      && Recorded(more) == Recorded(es) + if e.Write? then [e.record] else []
  {
    hide Apply, ValidEvent;
    var more := es + [e];
    assert more[..|es|] == es;
    forall i | 0 <= i < |more| ensures ValidEvent(f, more[i]) && Apply(f, Run(f, s0, more[..i]), more[i]).ok {
      if i < |es| {
        assert more[..i] == es[..i];
      }
    }
  }

  lemma HistoryStep(f: Format, s0: GoodStore, s: State, step: Step)
    requires s0.file.NoFile?
    requires QueueInv(s) && FlowInv(s) && HistoryInv(f, s0, s) && Enabled(f, s0, s, step)
    ensures HistoryInv(f, s0, Do(f, s0, s, step))
  {
    hide WriteToFile, PersistHeaderCount, ValidEvent, IsRecord, Run, AllWritesOk, CrashFree, ValidRun, Recorded, Leaves;
    if s.clean {
      match step
      case WriteOne(now, before) =>
        if before == [] {
          NoReopening(f, s0, s, now);
          AddedEvent(f, s0, s.events, Write(s.worker.batch[s.worker.done], now));
        }
      case PersistOk => PersistIsValid(f); AddedEvent(f, s0, s.events, Persist);
      case Join(_, _) => PersistIsValid(f); AddedEvent(f, s0, s.events, Close);
      case Start(_) =>
        assert s.accepted == s.handed;
        assert (s.handedBefore + s.handed) + [] == s.handedBefore + s.handed;
      case _ =>
    }
  }

  lemma NoReopening(f: Format, s0: GoodStore, s: State, now: int)
    requires Enabled(f, s0, s, WriteOne(now, []))
    ensures ValidEvent(f, Write(s.worker.batch[s.worker.done], now)) && ValidRun(f, s.events)
    ensures Apply(f, Run(f, s0, s.events), Write(s.worker.batch[s.worker.done], now)).ok
    ensures s.events + ([] + [Event.Write(s.worker.batch[s.worker.done], now)])
         == s.events + [Event.Write(s.worker.batch[s.worker.done], now)]
  {
    hide WriteToFile;
    EmptyRun(f, Run(f, s0, s.events));
  }

  lemma DirectoryStep(f: Format, s0: GoodStore, s: State, step: Step)
    requires s0.file.NoFile? && QueueInv(s) && DirectoryInv(f, s0, s) && Enabled(f, s0, s, step)
    ensures DirectoryInv(f, s0, Do(f, s0, s, step))
  {
    hide WriteToFile, PersistHeaderCount, ValidEvent, IsRecord, Run, ValidRun, Recorded;
    PersistIsValid(f);
    OneEventRun(f, s0, Persist);
    OneEventRun(f, s0, Close);
    match step
    case WriteOne(now, before) =>
      OneEventRun(f, s0, Write(s.worker.batch[s.worker.done], now));
      RunConcat(f, s0, before, [Write(s.worker.batch[s.worker.done], now)]);
      RunConcat(f, s0, s.events, before + [Write(s.worker.batch[s.worker.done], now)]);
    case WriteFails(left) => RunConcat(f, s0, s.events, left);
    case PersistOk => RunConcat(f, s0, s.events, [Persist]);
    case PersistFails(left) => RunConcat(f, s0, s.events, left);
    case Join(ok, left) =>
      RunConcat(f, s0, s.events, left);
      CloseEvents(f, Run(f, s0, s.events));
    case _ =>
  }

  lemma PersistIsValid(f: Format)
    ensures ValidEvent(f, Persist) && ValidEvent(f, Close)
  {
  }

  // --------------------------------------------------------------- all interleavings

  ghost predicate Possible(f: Format, s0: GoodStore, steps: seq<Step>)
    decreases |steps|, 0
  {
    steps == [] ||
    (Possible(f, s0, steps[..|steps| - 1]) && Enabled(f, s0, After(f, s0, steps[..|steps| - 1]), steps[|steps| - 1]))
  }

  ghost function After(f: Format, s0: GoodStore, steps: seq<Step>): State
    requires Possible(f, s0, steps)
    decreases |steps|, 1
  {
    if steps == [] then NEVER_OPENED
    else Do(f, s0, After(f, s0, steps[..|steps| - 1]), steps[|steps| - 1])
  }

  lemma {:induction false} ReachableInv(f: Format, s0: GoodStore, steps: seq<Step>)
    requires s0.file.NoFile? && Possible(f, s0, steps)
    ensures Inv(f, s0, After(f, s0, steps))
    decreases |steps|
  {
    hide Do, Enabled, QueueInv, WakeInv, FlowInv, HistoryInv, DirectoryInv;
    if steps == [] {
      InitialInv(f, s0);
    } else {
      var n := |steps| - 1;
      ReachableInv(f, s0, steps[..n]);
      var s := After(f, s0, steps[..n]);
      QueueStep(f, s0, s, steps[n]);
      FlowStep(f, s0, s, steps[n]);
      HistoryStep(f, s0, s, steps[n]);
      DirectoryStep(f, s0, s, steps[n]);
    }
  }

  lemma InitialInv(f: Format, s0: GoodStore)
    requires s0.file.NoFile?
    ensures Inv(f, s0, NEVER_OPENED)
  {
    hide HistoryInv, DirectoryInv;
    NoHistory(f, s0);
  }

  lemma NoHistory(f: Format, s0: GoodStore)
    requires s0.file.NoFile?
    ensures HistoryInv(f, s0, NEVER_OPENED) && DirectoryInv(f, s0, NEVER_OPENED)
  {
    hide Apply, ValidEvent;
    assert ValidRun(f, NEVER_OPENED.events);
    assert Run(f, s0, NEVER_OPENED.events) == s0;
  }

  /**
   Conservation and order, in every interleaving and including failures: every call
   that found the writer accepting is written, dropped, queued or in the batch in
   flight; records reach the file in the order they were accepted; the queue never
   exceeds its capacity.
   */
  lemma {:induction false} QueueConservation(f: Format, s0: GoodStore, steps: seq<Step>)
    requires s0.file.NoFile? && Possible(f, s0, steps)
    ensures var s := After(f, s0, steps);
      && s.offered == s.written + s.dropped + |s.queue| + (Uncounted(s.worker) + |InFlight(s.worker)|)
      && s.handed <= s.accepted
      && |s.queue| <= s.capacity
      && (s.worker == Absent || s.worker == Finished ==> s.offered == s.written + s.dropped)
  {
    hide After, Possible, HistoryInv, DirectoryInv;
    ReachableInv(f, s0, steps);
    var s := After(f, s0, steps);
    assert |s.accepted| == |s.handed| + |s.lost| + |InFlight(s.worker)| + |s.queue|;
  }

  /** A worker that sleeps on queued work, or through a close, is always about to be woken. */
  lemma {:induction false} NoLostWakeup(f: Format, s0: GoodStore, steps: seq<Step>)
    requires s0.file.NoFile? && Possible(f, s0, steps)
    ensures var s := After(f, s0, steps);
      s.worker == Waiting && (s.queue != [] || !s.running) ==>
        Enabled(f, s0, s, NotifyOne) || Enabled(f, s0, s, NotifyAll)
  {
    hide After, Possible, HistoryInv, DirectoryInv, FlowInv, QueueInv;
    ReachableInv(f, s0, steps);
  }

  // ------------------------------------------------------------------------ progress

  /** Steps the writer takes by itself: not a new call, not a spurious wakeup. */
  predicate Internal(step: Step) {
    !step.Offer? && !step.SpuriousWake? && !step.CloseBegin? && !step.Start?
  }

  function WorkerRank(w: Worker): nat {
    match w
    case Checking => 1
    case Writing(batch, done) => (if done <= |batch| then |batch| - done else 0) + 4
    case Broken(_, _) => 4
    case Counted(_, _, failed) => if failed then 2 else 3
    case _ => 0
  }

  function Rank(s: State): nat {
    5 * |s.queue| + 2 * s.notifies + WorkerRank(s.worker)
    + (match s.closer case Idle => 0 case Joining => 1 case Notifying => 3)
  }

  /** Left to itself the writer comes to rest: each of its own steps uses up rank. */
  lemma InternalStepsDescend(f: Format, s0: GoodStore, s: State, step: Step)
    requires QueueInv(s) && Enabled(f, s0, s, step) && Internal(step)
    ensures Rank(Do(f, s0, s, step)) < Rank(s)
  {
    hide WriteSucceeds, Leaves;
  }

  /**
   Where it can come to rest: nothing left to notify, and either the thread is gone or
   done with an empty queue, or it waits on an empty queue while running.  In
   particular close() always completes.
   */
  lemma {:induction false} RestsOnlyWhenIdle(f: Format, s0: GoodStore, steps: seq<Step>)
    requires s0.file.NoFile? && Possible(f, s0, steps)
    requires forall step :: Internal(step) ==> !Enabled(f, s0, After(f, s0, steps), step)
    ensures var s := After(f, s0, steps);
      && s.queue == [] && s.closer == Idle && s.notifies == 0
      && (s.worker == Absent || s.worker == Finished || (s.worker == Waiting && s.running))
  {
    hide After, Possible, Inv, QueueInv, WakeInv, Enabled, Internal;
    ReachableInv(f, s0, steps);
    var s := After(f, s0, steps);
    var open := CanMove(f, s0, s);
    assert open.Some? ==> Internal(open.value);
  }

  /** Some step of the writer's own is open, except at rest. */
  lemma CanMove(f: Format, s0: GoodStore, s: State) returns (step: Option<Step>)
    requires Inv(f, s0, s)
    ensures step.Some? ==> Internal(step.value) && Enabled(f, s0, s, step.value)
    ensures step.None? ==>
              (s.queue == [] && s.closer == Idle && s.notifies == 0
               && (s.worker == Absent || s.worker == Finished || (s.worker == Waiting && s.running)))
  {
    hide HistoryInv, FlowInv, WriteSucceeds, Leaves;
    GivingUp(f, s0, s);
    if s.notifies > 0 {
      return Some(NotifyOne);
    } else if s.closer == Notifying {
      return Some(NotifyAll);
    } else if s.closer == Joining && (s.worker == Finished || s.worker == Absent) {
      return Some(Join(true, [Close]));
    }
    match s.worker
    case Checking => return Some(Check);
    case Writing(batch, done) => return Some(if done < |batch| then WriteFails([Close]) else CountBatch);
    case Broken(_, _) => return Some(CountBatch);
    case Counted(_, _, failed) => return Some(if failed then Abort else PersistOk);
    case _ => return None;
  }

  /** A write can always fail, and closing leaves nothing open. */
  lemma GivingUp(f: Format, s0: GoodStore, s: State)
    requires DirectoryInv(f, s0, s)
    ensures forall r :: Leaves(f, s0, s, [Close], [r])
  {
    hide Run, ValidRun, Recorded;
    CloseEvents(f, Run(f, s0, s.events));
  }

  /** Steps taken one after the other from a state. */
  ghost predicate CanTake(f: Format, s0: GoodStore, s: State, steps: seq<Step>)
    decreases |steps|
  {
    steps == [] || (Enabled(f, s0, s, steps[0]) && CanTake(f, s0, Do(f, s0, s, steps[0]), steps[1..]))
  }

  /**
   From a reachable state no run of the writer's own steps is longer than the rank: it
   always comes to rest, so a close() that has begun completes.
   */
  lemma {:induction false} InternalRunsEnd(f: Format, s0: GoodStore, before: seq<Step>, steps: seq<Step>)
    requires s0.file.NoFile? && Possible(f, s0, before) && CanTake(f, s0, After(f, s0, before), steps)
    requires forall i :: 0 <= i < |steps| ==> Internal(steps[i])
    ensures |steps| <= Rank(After(f, s0, before))
    decreases |steps|
  {
    hide Do, Enabled, Rank, Inv, Internal;
    if steps != [] {
      var s := After(f, s0, before);
      assert (before + [steps[0]])[..|before|] == before;
      InvIsQueueInv(f, s0, before);
      InternalStepsDescend(f, s0, s, steps[0]);
      InternalRunsEnd(f, s0, before + [steps[0]], steps[1..]);
    }
  }

  /** How much is left to do once close() has begun. */
  function Left(s: State): nat {
    Rank(s) + if s.worker == Waiting then 2 else 0
  }

  /** While close() is under way calls to write() change nothing, and every other step brings its end closer. */
  lemma ClosingDescends(f: Format, s0: GoodStore, s: State, step: Step)
    requires QueueInv(s) && Enabled(f, s0, s, step) && s.closer != Idle
    ensures step.Offer? ==> Do(f, s0, s, step) == s
    ensures !step.Offer? ==> Left(Do(f, s0, s, step)) < Left(s)
  {
    hide WriteSucceeds, Leaves, IsRecord;
  }

  function OtherThanOffers(steps: seq<Step>): seq<Step> {
    if steps == [] then [] else (if steps[0].Offer? then [] else [steps[0]]) + OtherThanOffers(steps[1..])
  }

  /** From some point on and up to its end, close() is under way. */
  ghost predicate Closing(f: Format, s0: GoodStore, s: State, steps: seq<Step>)
    decreases |steps|
  {
    steps == [] || (s.closer != Idle && Enabled(f, s0, s, steps[0]) && Closing(f, s0, Do(f, s0, s, steps[0]), steps[1..]))
  }

  /**
   close() completes, whatever producers and spurious wakeups do meanwhile: in any run of
   any steps before its end, all but a bounded number are calls to write() without effect.
   */
  lemma {:induction false} CloseEnds(f: Format, s0: GoodStore, before: seq<Step>, steps: seq<Step>)
    requires s0.file.NoFile? && Possible(f, s0, before) && Closing(f, s0, After(f, s0, before), steps)
    ensures |OtherThanOffers(steps)| <= Left(After(f, s0, before))
    decreases |steps|
  {
    hide Do, Enabled, Left, Inv;
    if steps != [] {
      var s := After(f, s0, before);
      assert (before + [steps[0]])[..|before|] == before;
      InvIsQueueInv(f, s0, before);
      ClosingDescends(f, s0, s, steps[0]);
      CloseEnds(f, s0, before + [steps[0]], steps[1..]);
    }
  }

  lemma InvIsQueueInv(f: Format, s0: GoodStore, steps: seq<Step>)
    requires s0.file.NoFile? && Possible(f, s0, steps)
    ensures QueueInv(After(f, s0, steps))
  {
    hide QueueInv, WakeInv, FlowInv, HistoryInv, DirectoryInv;
    ReachableInv(f, s0, steps);
  }

  // ----------------------------------------------------------------- with failures

  lemma StepEvents(f: Format, s0: GoodStore, s: State, step: Step)
    requires Enabled(f, s0, s, step)
    ensures s.events <= Do(f, s0, s, step).events
  {
    hide WriteSucceeds, Leaves, IsRecord;
  }

  lemma {:induction false} EventsGrow(f: Format, s0: GoodStore, steps: seq<Step>, n: nat)
    requires n <= |steps| && Possible(f, s0, steps)
    ensures Possible(f, s0, steps[..n]) && After(f, s0, steps[..n]).events <= After(f, s0, steps).events
    decreases |steps|
  {
    hide Do, Enabled;
    if n == |steps| {
      assert steps[..n] == steps;
    } else {
      EventsGrow(f, s0, steps[..|steps| - 1], n);
      StepEvents(f, s0, After(f, s0, steps[..|steps| - 1]), steps[|steps| - 1]);
      assert steps[..|steps| - 1][..n] == steps[..n];
    }
  }

  /**
   Whatever fails and when: the directory stays sound.  Unless a slot could not be read
   during repair or a file read as missing, nothing complete in it is ever lost or altered,
   and what a successful count update covered heads its files ever after.
   */
  lemma {:induction false} FailuresLoseNothingCounted(f: Format, s0: GoodStore, steps: seq<Step>, n: nat)
    requires s0.file.NoFile? && Sound(f, s0) && Possible(f, s0, steps)
    requires n < |steps| && steps[n] == PersistOk
    ensures Possible(f, s0, steps[..n])
    ensures var mark, end := After(f, s0, steps[..n]), After(f, s0, steps);
      && ValidRun(f, mark.events) && ValidRun(f, mark.events + [Persist]) && ValidRun(f, end.events)
      && mark.events + [Persist] <= end.events
      && var since := end.events[|mark.events| + 1..];
      && ValidRun(f, since)
      && Sound(f, Run(f, s0, end.events))
      && (NoLoss(f, s0, end.events) ==> DurableKept(f, s0, Run(f, s0, end.events)))
      && (NoLoss(f, Run(f, s0, mark.events + [Persist]), since) ==>
            forall name :: Contents(f, Run(f, s0, mark.events), name) <= Durable(f, Run(f, s0, end.events), name))
  {
    hide Do, Enabled, Inv, Run, Sound, Contents, Durable, DurableKept, PersistHeaderCount, NoLoss;
    EventsGrow(f, s0, steps, n + 1);
    EventsGrow(f, s0, steps, n);
    CountedEvents(f, s0, steps, n);
    EventsAreValid(f, s0, steps[..n]);
    EventsAreValid(f, s0, steps[..n + 1]);
    EventsAreValid(f, s0, steps);
    var a, all := After(f, s0, steps[..n]).events, After(f, s0, steps).events;
    var since := all[|a| + 1..];
    assert all == a + [Event.Persist] + since;
    RunIsSound(f, s0, all);
    Prefixes(f, a, since);
    PersistLast(f, s0, a);
    RunConcat(f, s0, a + [Event.Persist], since);
    if NoLoss(f, Run(f, s0, a + [Event.Persist]), since) {
      forall name ensures Contents(f, Run(f, s0, a), name) <= Durable(f, Run(f, s0, all), name) {
        PersistedRecordsSurvive(f, s0, a, since, name);
      }
    }
  }

  lemma CountedEvents(f: Format, s0: GoodStore, steps: seq<Step>, n: nat)
    requires n < |steps| && steps[n] == PersistOk && Possible(f, s0, steps[..n]) && Possible(f, s0, steps[..n + 1])
    ensures After(f, s0, steps[..n + 1]).events == After(f, s0, steps[..n]).events + [Persist]
  {
    hide WriteSucceeds, Leaves;
    assert steps[..n + 1][..n] == steps[..n];
  }

  lemma EventsAreValid(f: Format, s0: GoodStore, steps: seq<Step>)
    requires s0.file.NoFile? && Possible(f, s0, steps)
    ensures ValidRun(f, After(f, s0, steps).events)
    ensures After(f, s0, steps).worker == Absent ==> Run(f, s0, After(f, s0, steps).events).file.NoFile?
  {
    hide QueueInv, WakeInv, FlowInv, HistoryInv;
    ReachableInv(f, s0, steps);
  }

  // ------------------------------------------------------------------- end to end

  function Stamps(f: Format, rs: seq<Record>): (ss: seq<Record>)
    requires AreRecords(f, rs)
    ensures AreRecords(f, ss)
  {
    if rs == [] then [] else Stamps(f, rs[..|rs| - 1]) + [Stamp(f, rs[|rs| - 1])]
  }

  lemma {:induction false} WrittenIsRecorded(f: Format, es: seq<Event>)
    requires ValidRun(f, es)
    ensures AreRecords(f, Recorded(es)) && Written(f, es) == Stamps(f, Recorded(es))
  {
    hide Stamp;
    if es != [] {
      var n := |es| - 1;
      WrittenIsRecorded(f, es[..n]);
      var rs := Recorded(es[..n]);
      assert ValidEvent(f, es[n]);
      if es[n].Write? {
        assert (rs + [es[n].record])[..|rs|] == rs;
      } else {
        assert Recorded(es) == rs && Written(f, es) == Written(f, es[..n]);
      }
    }
  }

  lemma {:induction false} TimelyRecords(f: Format, es: seq<Event>)
    requires ValidRun(f, es) && AreRecords(f, Recorded(es))
    requires forall i :: 0 <= i < |Recorded(es)| ==> RecvTs(f, Recorded(es)[i]) > 0
    ensures TimelyRun(f, es)
  {
    hide RecvTs;
    if es != [] {
      var n := |es| - 1;
      var rs := Recorded(es[..n]);
      assert rs <= Recorded(es);
      assert forall i :: 0 <= i < |rs| ==> rs[i] == Recorded(es)[i];
      TimelyRecords(f, es[..n]);
      if es[n].Write? {
        assert Recorded(es)[|rs|] == es[n].record;
      }
    }
  }

  /**
   Whatever the interleaving, over any number of sessions: once close() has returned and
   no file operation failed, the directory is the result of a crash-free history that
   wrote exactly the accepted records in acceptance order.
   */
  lemma {:induction false} ClosedWriterHistory(f: Format, s0: GoodStore, steps: seq<Step>)
    requires s0.file.NoFile? && Possible(f, s0, steps)
    requires After(f, s0, steps).clean && After(f, s0, steps).worker == Absent
    ensures var s := After(f, s0, steps);
      && ValidRun(f, s.events) && CrashFree(s.events) && Run(f, s0, s.events).file.NoFile?
      && AreRecords(f, s.acceptedBefore + s.accepted)
      && Written(f, s.events) == Stamps(f, s.acceptedBefore + s.accepted)
      && ((forall i :: 0 <= i < |s.acceptedBefore + s.accepted| ==>
             RecvTs(f, (s.acceptedBefore + s.accepted)[i]) > 0) ==> TimelyRun(f, s.events))
  {
    hide After, Possible, Run, RecvTs, Stamps, Written, TimelyRun, ValidRun, CrashFree, Recorded;
    ReachableInv(f, s0, steps);
    var s := After(f, s0, steps);
    assert s.accepted == s.handed;
    WrittenIsRecorded(f, s.events);
    if forall i :: 0 <= i < |s.acceptedBefore + s.accepted| ==> RecvTs(f, (s.acceptedBefore + s.accepted)[i]) > 0 {
      TimelyRecords(f, s.events);
    }
  }
}
