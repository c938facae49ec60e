/**
 The writer object of src/storage/binary_record_writer.h, method by method, with its
 fields updated in place.

 Every file operation may fail, also where the source does not notice: the outcome of each
 call into the file system is a parameter, and so is each reading of the clock.  Whatever
 happens, what a method did to the directory is a list of FileStore events.
 */
module RecordWriter {
  import opened Crc32
  import opened RecordFormat
  import opened DataDirectory
  import opened RecordIntegrity
  import opened FileRoll
  import opened FileStore
  import opened WriterProtocol

  /**
   The first file operation that fails during a call, if any.  Bytes that the failing
   stream still holds and that reach the file later count as reaching it at once.
   */
  datatype Fault =
    | Works
    | PersistFails(counted: bool, kept: nat)  // some of the body, or the body and the count, reached the file
    | CloseFails
    | RepairFails(how: RepairFault)
    | OpenFails
    | HeaderFails(kept: nat)
    | BodyFails(kept: nat)

  /**
   What the source does not notice while it opens an existing file: the test whether it is
   there fails, or repair cannot read the slot numbered readable.
   */
  datatype Reopen = Undisturbed | StatFails | ShortRead(readable: nat)

  /** What one record meets: the clock, opening its file, its write, and the count update if it ends its batch. */
  datatype Turn = Turn(now: int, reopen: Reopen, write: Fault, count: Fault)

  /** A record that was written, and what opening its file had done before. */
  datatype Done = Done(record: Record, now: int, before: seq<Event>)

  /** What producers and worker share. */
  datatype Fields = Fields(
    queue: seq<Record>, capacity: nat, running: bool, accepting: bool, written: nat, dropped: nat,
    joinable: bool, looping: bool)

  class BinaryRecordWriter {
    const f: Format
    const dir: DataDir
    // the stream: file_, whether it has failed, and what it still buffers
    var fileOpen: bool
    var streamBad: bool
    var pending: seq<byte>
    var currentName: string
    var fileRecordCount: nat
    // the thread: worker_.joinable(), and whether it is still in its loop
    var joinable: bool
    var looping: bool
    // the queue
    var queue: seq<Record>
    var queueCapacity: nat
    var running: bool
    var accepting: bool
    var queueDepthMax: nat
    var recordsWritten: nat
    var recordsDropped: nat
    var tailBytesDiscarded: nat
    var writeError: bool

    constructor (f: Format, dir: DataDir)
      ensures this.f == f && this.dir == dir && Valid()
      ensures View() == Store(dir.files, NoFile) && Shared() == Fields([], 100000, false, false, 0, 0, false, false)
      ensures !writeError
    {
      this.f, this.dir := f, dir;
      fileOpen, streamBad, pending, currentName, fileRecordCount := false, false, [], "", 0;
      joinable, looping := false, false;
      queue, queueCapacity, running, accepting, queueDepthMax := [], 100000, false, false, 0;
      recordsWritten, recordsDropped, tailBytesDiscarded, writeError := 0, 0, 0, false;
    }

    /** The stream and the directory as one value; a failed stream holds nothing. */
    ghost function View(): Store
      reads this`fileOpen, this`streamBad, this`pending, this`currentName, this`fileRecordCount, dir
    {
      Store(dir.files,
            if fileOpen && !streamBad then FileStore.Open(currentName, pending, fileRecordCount) else NoFile)
    }

    ghost predicate FilesOk()
      reads this`fileOpen, this`streamBad, this`pending, this`currentName, this`fileRecordCount, dir
    {
      && View().WellFormed()
      && (fileOpen <==> currentName != "")
      && (streamBad ==> fileOpen)
    }

    /** After an error no good stream is left open. */
    ghost predicate ErrorStops()
      reads this`fileOpen, this`streamBad, this`writeError
    {
      writeError && fileOpen ==> streamBad
    }

    /** The fields that producers and worker share. */
    ghost function Shared(): Fields
      reads this`queue, this`queueCapacity, this`running, this`accepting, this`recordsWritten,
            this`recordsDropped, this`joinable, this`looping
    {
      Fields(queue, queueCapacity, running, accepting, recordsWritten, recordsDropped, joinable, looping)
    }

    /** Between two critical sections, the worker not being in the middle of a batch. */
    ghost predicate Valid()
      reads this, dir
    {
      && FilesOk() && ErrorStops() && AreRecords(f, queue)
      && |queue| <= queueCapacity && |queue| <= queueDepthMax
      && accepting == running && (running ==> looping) && (looping ==> joinable)
      && (!looping ==> queue == []) && (!joinable ==> !fileOpen)
      && (writeError ==> !looping) && (!writeError ==> !streamBad)
    }

    // ------------------------------------------------------------------ the files

    method PersistHeaderCount(fault: Fault) returns (ok: bool, ghost left: seq<Event>)
      requires FilesOk() && ErrorStops() && (streamBad ==> writeError)
      modifies this`pending, this`streamBad, this`writeError, dir
      ensures FilesOk() && ErrorStops()
      ensures ok == (!fileOpen || (!old(writeError) && !fault.PersistFails?))
      ensures writeError == (old(writeError) || !ok)
      ensures ok ==> left == [Event.Persist] && streamBad == old(streamBad) && pending == (if fileOpen then [] else old(pending))
      ensures !ok ==> streamBad && (old(writeError) ==> left == [])
      ensures !ok && !old(writeError) ==> left == if fault.counted then [Event.Persist, Crash(0)] else [Crash(fault.kept)]
      ensures ValidRun(f, left) && Recorded(left) == [] && View() == Run(f, old(View()), left)
      ensures AllHarmless(left)
    {
      hide WithCount, Run;
      if !fileOpen {
        PersistEvents(f, View(), 0);
        return true, [Event.Persist];
      }
      if writeError {
        EmptyRun(f, View());
        return false, [];
      }
      PersistEvents(f, View(), if fault.PersistFails? then fault.kept else 0);
      var bytes := dir.files[currentName] + pending;
      if fault.PersistFails? && !fault.counted {
        var kept := if fault.kept < |pending| then fault.kept else |pending|;
        dir.files := dir.files[currentName := dir.files[currentName] + pending[..kept]];
        pending, streamBad, writeError := [], true, true;
        return false, [Crash(fault.kept)];
      }
      pending := [];
      dir.files := dir.files[currentName := WithCount(bytes, fileRecordCount)];
      if fault.PersistFails? {
        assert dir.files[currentName] + [] == dir.files[currentName];
        streamBad, writeError := true, true;
        return false, [Event.Persist, Crash(0)];
      }
      return true, [Event.Persist];
    }

    method CloseCurrentFile(fault: Fault) returns (ok: bool, ghost left: seq<Event>)
      requires FilesOk() && ErrorStops() && (streamBad ==> writeError)
      modifies this`fileOpen, this`streamBad, this`pending, this`currentName, this`fileRecordCount, this`writeError, dir
      ensures FilesOk() && !fileOpen
      ensures ok == (!old(fileOpen) || (!old(writeError) && !fault.PersistFails? && !fault.CloseFails?))
      ensures writeError == (old(writeError) || !ok)
      ensures ok ==> left == [Event.Close]
      ensures ValidRun(f, left) && Recorded(left) == [] && View() == Run(f, old(View()), left)
      ensures AllHarmless(left)
    {
      hide WithCount, Run;
      CloseEvents(f, View());
      if !fileOpen {
        currentName, fileRecordCount := "", 0;
        return true, [Event.Close];
      }
      PersistEvents(f, View(), 0);
      ok, left := PersistHeaderCount(fault);
      if ok {
        left := [Event.Close];
        if fault.CloseFails? {
          ok, writeError := false, true;
        }
      }
      fileOpen, streamBad, pending, currentName, fileRecordCount := false, false, [], "", 0;
    }

    /**
     open_file.  Where the existence test fails an existing file is created anew, and what
     repair cannot read it cuts off; neither is an error.
     */
    method OpenFile(name: string, reopen: Reopen, fault: Fault) returns (ok: bool)
      requires FilesOk() && !fileOpen && name != "" && !writeError
      modifies this`fileOpen, this`pending, this`currentName, this`fileRecordCount, this`tailBytesDiscarded, dir
      ensures FilesOk()
      ensures ok == if Repairs(old(View()), name, reopen)
                    then (RepairSucceeds(f, old(dir.files)[name], SlotsRead(reopen, old(dir.files)[name]), RepairFaultOf(fault))
                          && !fault.OpenFails?)
                    else !fault.OpenFails? && !fault.HeaderFails?
      ensures ok ==> OpenHourFile(f, Prepared(f, old(View()), name, reopen), name) == Outcome(View(), true)
      ensures !ok ==> !fileOpen && View() == LeftByOpening(f, old(View()), name, reopen, fault)
      ensures tailBytesDiscarded == old(tailBytesDiscarded)
              + if Repairs(old(View()), name, reopen)
                   && RepairSucceeds(f, old(dir.files)[name], SlotsRead(reopen, old(dir.files)[name]), RepairFaultOf(fault))
                then |old(dir.files)[name]| - |dir.files[name]| else 0
      ensures tailBytesDiscarded >= old(tailBytesDiscarded)
    {
      hide View, FilesOk, Prepared, LeftByOpening, RepairSucceeds, OpenHourFile, Repairs;
      var found := name in dir.files && !reopen.StatFails?;
      FoundIsRepaired(name, reopen);
      if found {
        ok := ReopenFile(name, reopen, fault);
      } else {
        ok := CreateFile(name, reopen, fault);
      }
    }

    lemma FoundIsRepaired(name: string, reopen: Reopen)
      ensures Repairs(View(), name, reopen) <==> name in dir.files && !reopen.StatFails?
    {
    }

    /** The file is there: repair it and go on at its end. */
    method ReopenFile(name: string, reopen: Reopen, fault: Fault) returns (ok: bool)
      requires FilesOk() && !fileOpen && name != "" && !writeError && Repairs(View(), name, reopen)
      modifies this`fileOpen, this`pending, this`currentName, this`fileRecordCount, this`tailBytesDiscarded, dir
      ensures FilesOk()
      ensures ok == (RepairSucceeds(f, old(dir.files)[name], SlotsRead(reopen, old(dir.files)[name]), RepairFaultOf(fault))
                     && !fault.OpenFails?)
      ensures ok ==> OpenHourFile(f, Prepared(f, old(View()), name, reopen), name) == Outcome(View(), true)
      ensures !ok ==> !fileOpen && View() == LeftByOpening(f, old(View()), name, reopen, fault)
      ensures tailBytesDiscarded == old(tailBytesDiscarded)
              + if RepairSucceeds(f, old(dir.files)[name], SlotsRead(reopen, old(dir.files)[name]), RepairFaultOf(fault))
                then |old(dir.files)[name]| - |dir.files[name]| else 0
      ensures tailBytesDiscarded >= old(tailBytesDiscarded)
    {
      hide Repaired, HeaderOk, GoodCount, Body, Slots, GoodLength, LegibleBody, CutBack, Legible, LeftByOpening, Prepared,
           RepairSucceeds, LeftByRepair, OpenHourFile;
      ghost var s := View();
      var repaired := RepairRecordFile(f, dir, name, SlotsRead(reopen, dir.files[name]), RepairFaultOf(fault));
      RepairLeaves(f, s, name, reopen, fault);
      if !repaired.ok {
        return false;
      }
      tailBytesDiscarded := tailBytesDiscarded + repaired.bytesDiscarded;
      if fault.OpenFails? {
        return false;
      }
      fileOpen, pending, fileRecordCount, currentName := true, [], repaired.validRecords, name;
      return true;
    }

    /** The file is not there, or seems not to be: create it, with a header. */
    method CreateFile(name: string, reopen: Reopen, fault: Fault) returns (ok: bool)
      requires FilesOk() && !fileOpen && name != "" && !writeError && !Repairs(View(), name, reopen)
      modifies this`fileOpen, this`pending, this`currentName, this`fileRecordCount, dir
      ensures FilesOk() && ok == (!fault.OpenFails? && !fault.HeaderFails?)
      ensures ok ==> OpenHourFile(f, Prepared(f, old(View()), name, reopen), name) == Outcome(View(), true)
      ensures !ok ==> !fileOpen && View() == LeftByOpening(f, old(View()), name, reopen, fault)
    {
      hide Header, OpenHourFile, RepairUpTo, EraseFile, CrashKeeping, CrashInRepair;
      ghost var s := Directory();
      if fault.OpenFails? {
        return false;
      }
      dir.files := dir.files[name := []];
      CreatedAnew(f, s, name, fault);
      var header := Header(f, 0);
      HeaderSize(f);
      if fault.HeaderFails? {
        var kept := if fault.kept < |header| then fault.kept else |header|;
        dir.files := dir.files[name := header[..kept]];
        return false;
      }
      fileOpen, pending, fileRecordCount, currentName := true, header, 0, name;
      return true;
    }

    /** Stamp a copy and put it behind the buffered bytes. */
    method AppendStamped(record: Record, fault: Fault) returns (ok: bool)
      requires FilesOk() && fileOpen && !streamBad && IsRecord(f, record)
      modifies this`pending, this`streamBad, this`fileRecordCount, dir
      ensures FilesOk() && ok == !fault.BodyFails? && streamBad == !ok
      ensures View() == if ok then Append(f, old(View()), record)
                        else CrashKeeping(Append(f, old(View()), record), fault.kept)
    {
      hide Stamp;
      var stamped := new byte[f.size](i requires 0 <= i < |record| => record[i]);
      assert stamped[..] == record;
      StampRecordCrc(f, stamped);
      if fault.BodyFails? {
        var bytes := pending + stamped[..];
        var kept := if fault.kept < |bytes| then fault.kept else |bytes|;
        dir.files := dir.files[currentName := dir.files[currentName] + bytes[..kept]];
        pending, streamBad := [], true;
        return false;
      }
      pending := pending + stamped[..];
      fileRecordCount := fileRecordCount + 1;
      return true;
    }

    /** left: what the call did to the directory; before: the part of it that opening the file did. */
    method WriteToFile(record: Record, now: int, reopen: Reopen, fault: Fault)
      returns (ok: bool, ghost before: seq<Event>, ghost left: seq<Event>)
      requires FilesOk() && !writeError && !streamBad
      requires IsRecord(f, record) && InRange(FilingTs(f, record, now))
      modifies this`fileOpen, this`streamBad, this`pending, this`currentName, this`fileRecordCount,
               this`tailBytesDiscarded, this`writeError, dir
      ensures FilesOk() && ErrorStops()
      ensures ValidRun(f, left) && View() == Run(f, old(View()), left)
      ensures ok ==> left == before + [Event.Write(record, now)] && Allowed(f, old(View()), Done(record, now, before))
      ensures ok ==> fileOpen && !streamBad && !writeError
      ensures !ok ==> Recorded(left) <= [record] && (streamBad || !fileOpen)
      ensures reopen.Undisturbed? ==> before == [] && NoLoss(f, old(View()), left)
      ensures reopen.Undisturbed? && fault.Works? ==> ok == FileStore.WriteToFile(f, old(View()), record, now).ok
      ensures tailBytesDiscarded >= old(tailBytesDiscarded)
    {
      hide OpenHourFile, FileStore.CloseCurrentFile, Stamp, HourlyFileName, FilingTs, InRange, Run, ValidRun, Recorded,
           LeftByOpening, CrashKeeping, RepairSucceeds, NoLoss, Prepared, Reopening, Repairs, AllHarmless;
      var name := FileFor(f, record, now);
      NameIsNotEmpty(f, record, now);
      ghost var s := Directory();
      before := [];
      EmptyRun(f, s);
      PlainReopening(f, record, now);
      ghost var t := s;
      if name != currentName {
        var closed;
        closed, left := CloseCurrentFile(fault);
        if !closed {
          NothingRecordedFits(left, record);
          NoLossInClosing(f, s, left);
          return false, [], left;
        }
        CloseEvents(f, s);
        t := Directory();
        var ready := OpenFile(name, reopen, fault);
        OpensItsFile(f, Prepared(f, t, name, reopen), name);
        OpensUndisturbed(f, t, name);
        if !ready {
          left := OpeningEvents(f, s, record, now, reopen, fault);
          return false, [], left;
        }
        before := PreparingEvents(f, s, record, now, reopen);
        t := Run(f, s, before);
      }
      WriteEvents(f, t, record, now, if fault.BodyFails? then fault.kept else 0);
      ok := AppendStamped(record, fault);
      ghost var last := if ok then [Event.Write(record, now)] else [Event.Write(record, now), Crash(fault.kept)];
      left := before + last;
      Joined(f, s, before, last, record);
      if reopen.Undisturbed? {
        NoLossInWriting(f, s, record, now, last);
      }
    }

    // ------------------------------------------------------------------ the queue

    /**
     open(): refused while running, with capacity 0, or when the data directory cannot be
     created; otherwise a new session with fresh counters.  Assigning a new thread while the
     old one is joinable is the caller's error.
     */
    method Open(capacity: nat, canCreate: bool) returns (ok: bool)
      requires Valid() && (!running && capacity > 0 && canCreate ==> !joinable)
      modifies this
      ensures Valid() && ok == (!old(running) && capacity > 0 && canCreate) && View() == old(View())
      ensures ok ==> Shared() == Fields([], capacity, true, true, 0, 0, true, true)
      ensures ok ==> !writeError && tailBytesDiscarded == queueDepthMax == 0
      ensures !ok ==> unchanged(this)
    {
      if running || capacity == 0 || !canCreate {
        return false;
      }
      StartSession(capacity);
      return true;
    }

    method StartSession(capacity: nat)
      requires Valid() && !joinable && capacity > 0
      modifies this
      ensures Valid() && View() == old(View())
      ensures Shared() == Fields([], capacity, true, true, 0, 0, true, true)
      ensures !writeError && tailBytesDiscarded == queueDepthMax == 0
    {
      hide View, FilesOk;
      ForgetFile();
      ResetCounters();
      queueCapacity := capacity;
      writeError, running, accepting, joinable, looping := false, true, true, true, true;
    }

    method ForgetFile()
      requires FilesOk() && !fileOpen
      modifies this`currentName, this`fileRecordCount
      ensures FilesOk() && View() == old(View())
    {
      currentName, fileRecordCount := "", 0;
    }

    method ResetCounters()
      modifies this`recordsWritten, this`recordsDropped, this`tailBytesDiscarded, this`queueDepthMax
      ensures recordsWritten == recordsDropped == tailBytesDiscarded == queueDepthMax == 0
    {
      recordsWritten, recordsDropped, tailBytesDiscarded, queueDepthMax := 0, 0, 0, 0;
    }

    /** write(): enqueue, count a drop when full, refuse when closed; notify asks for a wakeup. */
    method Write(record: Record) returns (ok: bool, notify: bool)
      requires Valid() && IsRecord(f, record)
      modifies this`queue, this`recordsDropped, this`queueDepthMax
      ensures Valid() && View() == old(View())
      ensures ok == (accepting && running && |old(queue)| < queueCapacity)
      ensures notify == (ok && old(queue) == [])
      ensures queue == old(queue) + if ok then [record] else []
      ensures recordsDropped == old(recordsDropped)
              + if accepting && running && |old(queue)| >= queueCapacity then 1 else 0
      ensures queueDepthMax == if |queue| > old(queueDepthMax) then |queue| else old(queueDepthMax)
    {
      if !accepting || !running {
        return false, false;
      }
      if |queue| >= queueCapacity {
        recordsDropped := recordsDropped + 1;
        return false, false;
      }
      notify := queue == [];
      queue := queue + [record];
      if |queue| > queueDepthMax {
        queueDepthMax := |queue|;
      }
      return true, notify;
    }

    /** The worker's section that takes a batch of at most 1024 records. */
    method TakeBatch() returns (batch: seq<Record>)
      modifies this`queue
      ensures batch == old(queue)[..BatchSize(|old(queue)|)]
      ensures queue == old(queue)[BatchSize(|old(queue)|)..]
      ensures |batch| <= 1024 && (|batch| == 1024 || queue == [])
    {
      batch := [];
      while queue != [] && |batch| < BATCH_LIMIT
        invariant |batch| <= BATCH_LIMIT && |batch| + |queue| == |old(queue)|
        invariant batch == old(queue)[..|batch|] && queue == old(queue)[|batch|..]
      {
        batch := batch + [queue[0]];
        queue := queue[1..];
      }
    }

    /** Write a batch up to the first failure: ws are the records written, left is what the failing write did. */
    method WriteBatch(batch: seq<Record>, turns: seq<Turn>)
      returns (written: nat, ghost ws: seq<Done>, ghost left: seq<Event>)
      requires FilesOk() && !writeError && !streamBad && InTime(f, batch, turns)
      modifies this`fileOpen, this`streamBad, this`pending, this`currentName, this`fileRecordCount,
               this`tailBytesDiscarded, this`writeError, dir
      ensures FilesOk() && ErrorStops() && written == |ws| <= |batch| && Matches(ws, batch, turns)
      ensures Goes(f, old(View()), ws)
      ensures ValidRun(f, left) && View() == Run(f, AfterWrites(f, old(View()), ws), left)
      ensures written == |batch| ==> left == [] && !writeError && !streamBad
      ensures written < |batch| ==> Recorded(left) <= [batch[written]] && (streamBad || !fileOpen)
      ensures written < |batch| && turns[written].reopen.Undisturbed? ==>
                (NoLoss(f, AfterWrites(f, old(View()), ws), left)
                 && (turns[written].write.Works? ==>
                       !FileStore.WriteToFile(f, AfterWrites(f, old(View()), ws), batch[written], turns[written].now).ok))
    {
      hide FileStore.WriteToFile, FilingTs, InRange, View, FilesOk, Run, ValidRun, Recorded, Allowed, AfterWrites, NoLoss;
      written, ws, left := 0, [], [];
      EmptyRun(f, Directory());
      NothingWritten(f, Directory());
      for i := 0 to |batch|
        invariant FilesOk() && !writeError && !streamBad && written == i == |ws| && left == []
        invariant Matches(ws, batch, turns) && Goes(f, old(View()), ws)
        invariant View() == AfterWrites(f, old(View()), ws)
      {
        var ok;
        ghost var before;
        ok, before, left := WriteToFile(batch[i], turns[i].now, turns[i].reopen, turns[i].write);
        if !ok {
          return;
        }
        OneMoreWrite(f, old(View()), ws, Done(batch[i], turns[i].now, before));
        written, ws, left := written + 1, ws + [Done(batch[i], turns[i].now, before)], [];
      }
      EmptyRun(f, Directory());
    }

    /** The failure section: stop, and count everything not written as dropped. */
    method StopAfterFailure(unwritten: nat)
      requires FilesOk() && (streamBad || !fileOpen)
      modifies this`writeError, this`accepting, this`running, this`looping, this`recordsDropped, this`queue
      ensures FilesOk() && ErrorStops() && View() == old(View())
      ensures View().file.NoFile?
      ensures writeError && !accepting && !running && !looping && queue == []
      ensures recordsDropped == old(recordsDropped) + unwritten + old(|queue|)
    {
      writeError, accepting, running, looping := true, false, false, false;
      recordsDropped := recordsDropped + unwritten + |queue|;
      queue := [];
    }

    /** Write a batch, count what was written, and on success bring the header up to date. */
    method WriteAndCount(batch: seq<Record>, turns: seq<Turn>)
      returns (failed: bool, written: nat, ghost ws: seq<Done>, ghost left: seq<Event>)
      requires FilesOk() && !writeError && !streamBad && InTime(f, batch, turns)
      modifies this`fileOpen, this`streamBad, this`pending, this`currentName, this`fileRecordCount,
               this`tailBytesDiscarded, this`writeError, this`recordsWritten, dir
      ensures FilesOk() && ErrorStops() && recordsWritten == old(recordsWritten) + written
      ensures written == |ws| <= |batch| && Matches(ws, batch, turns) && Goes(f, old(View()), ws)
      ensures ValidRun(f, left) && View() == Run(f, AfterWrites(f, old(View()), ws), left)
      ensures !failed ==> written == |batch| && left == (if batch == [] then [] else [Event.Persist])
      ensures !failed ==> !writeError && !streamBad
      ensures failed ==> Recorded(left) <= NextOf(batch, written) && (streamBad || !fileOpen)
      ensures failed ==> CauseOfFailure(f, AfterWrites(f, old(View()), ws), batch, turns, written)
      ensures CalmTurns(turns, |batch|) ==> NoLoss(f, AfterWrites(f, old(View()), ws), left)
    {
      hide FileStore.WriteToFile, FilingTs, InRange, View, FilesOk, Run, ValidRun, Recorded, Allowed, AfterWrites, NoLoss,
           Matches, AllHarmless;
      ghost var s := Directory();
      written, ws, left := WriteBatch(batch, turns);
      recordsWritten := recordsWritten + written;
      failed := written < |batch|;
      ghost var t := AfterWrites(f, s, ws);
      NoLossInCounting(f, t);
      if !failed && written > 0 {
        EmptyRun(f, t);
        var ok;
        ok, left := PersistHeaderCount(turns[written - 1].count);
        NoLossInClosing(f, t, left);
        failed := !ok;
      }
    }

    /**
     One turn of the writer loop on a nonempty queue.  Either the batch is written and
     the header count updated, or a file operation fails, the writer stops there, and
     everything left is dropped.
     */
    method DrainBatch(turns: seq<Turn>) returns (ghost ws: seq<Done>, ghost left: seq<Event>)
      requires Valid() && looping && queue != []
      requires InTime(f, queue[..BatchSize(|queue|)], turns)
      modifies this, dir
      ensures Valid() && recordsWritten == old(recordsWritten) + |ws|
      ensures Drained(f, old(View()), old(Shared()), turns, ws, left, writeError, View(), Shared())
      ensures var n := BatchSize(|old(queue)|);
              && (writeError ==>
                    CauseOfFailure(f, AfterWrites(f, old(View()), ws), old(queue)[..n], turns, |ws|))
              && (CalmTurns(turns, n) ==> NoLoss(f, AfterWrites(f, old(View()), ws), left))
      ensures recordsWritten + recordsDropped + |queue| == old(recordsWritten + recordsDropped + |queue|)
    {
      hide FileStore.WriteToFile, FilingTs, InRange, View, FilesOk, Run, ValidRun, Recorded, Goes, AfterWrites, NoLoss,
           CalmTurns;
      var batch := TakeBatch();
      var failed, written;
      failed, written, ws, left := WriteAndCount(batch, turns);
      if failed {
        StopAfterFailure(|batch| - written);
      }
    }

    /** close(), first section: no more records are taken. */
    method ClearFlags()
      requires Valid()
      modifies this`accepting, this`running
      ensures Valid() && View() == old(View()) && Shared() == old(Shared()).(running := false, accepting := false)
    {
      accepting, running := false, false;
    }

    /** The worker finds nothing to do: it leaves its loop once the flags are cleared. */
    method LeaveWhenDone()
      requires Valid() && looping && queue == []
      modifies this`looping
      ensures Valid() && View() == old(View()) && Shared() == old(Shared()).(looping := running)
    {
      looping := running;
    }

    /** close(), after the worker has left: join it and close the last file. */
    method JoinAndClose(fault: Fault) returns (ok: bool, ghost left: seq<Event>)
      requires Valid() && !running && !looping
      modifies this, dir
      ensures Valid() && !joinable && Shared() == old(Shared()).(joinable := false)
      ensures ok == (!old(fileOpen) || (!old(writeError) && !fault.PersistFails? && !fault.CloseFails?))
      ensures writeError == (old(writeError) || !ok)
      ensures ok ==> left == [Event.Close]
      ensures ValidRun(f, left) && Recorded(left) == [] && View() == Run(f, old(View()), left) && View().file.NoFile?
      ensures AllHarmless(left)
    {
      hide Run, ValidRun, Recorded;
      joinable := false;
      ok, left := CloseCurrentFile(fault);
    }

    /** View, as a well-formed store. */
    ghost function Directory(): (s: GoodStore)
      requires FilesOk()
      reads this`fileOpen, this`streamBad, this`pending, this`currentName, this`fileRecordCount, dir
      ensures s == View()
    {
      View()
    }
  }

  // ------------------------------------------------------------------ batches as values

  /** The clock readings put every record into the calendar. */
  ghost predicate InTime(f: Format, rs: seq<Record>, turns: seq<Turn>) {
    && AreRecords(f, rs) && |rs| <= |turns|
    && forall i :: 0 <= i < |rs| ==> InRange(FilingTs(f, rs[i], turns[i].now))
  }

  /** Opening files is not disturbed. */
  ghost predicate CalmTurns(turns: seq<Turn>, n: nat) {
    forall i :: 0 <= i < n && i < |turns| ==> turns[i].reopen.Undisturbed?
  }

  /** No file operation fails either. */
  ghost predicate FaultFree(turns: seq<Turn>, n: nat) {
    forall i :: 0 <= i < n && i < |turns| ==>
      turns[i].reopen.Undisturbed? && turns[i].write.Works? && turns[i].count.Works?
  }

  /** The records written are the first of the batch, under their turns' clocks. */
  ghost predicate Matches(ws: seq<Done>, batch: seq<Record>, turns: seq<Turn>) {
    && |ws| <= |batch| && |ws| <= |turns|
    && forall i :: 0 <= i < |ws| ==>
         && ws[i].record == batch[i] && ws[i].now == turns[i].now
         && (turns[i].reopen.Undisturbed? ==> ws[i].before == [])
  }

  ghost predicate Proper(f: Format, ws: seq<Done>) {
    forall i :: 0 <= i < |ws| ==> ValidEvent(f, Event.Write(ws[i].record, ws[i].now)) && ValidRun(f, ws[i].before)
  }

  /** The write is let through after what opening its file did. */
  ghost predicate Allowed(f: Format, s: GoodStore, w: Done) {
    && ValidEvent(f, Event.Write(w.record, w.now)) && Reopening(f, w.record, w.now, w.before) && ValidRun(f, w.before)
    && FileStore.WriteToFile(f, Run(f, s, w.before), w.record, w.now).ok
  }

  /** The directory after writing records in order. */
  ghost function AfterWrites(f: Format, s: GoodStore, ws: seq<Done>): GoodStore
    requires Proper(f, ws)
  {
    if ws == [] then s else
      var w := ws[|ws| - 1];
      FileStore.WriteToFile(f, Run(f, AfterWrites(f, s, ws[..|ws| - 1]), w.before), w.record, w.now).store
  }

  /** Every one of these writes is let through. */
  ghost predicate Goes(f: Format, s: GoodStore, ws: seq<Done>) {
    Proper(f, ws) && forall i :: 0 <= i < |ws| ==> Allowed(f, AfterWrites(f, s, ws[..i]), ws[i])
  }

  lemma NothingWritten(f: Format, s: GoodStore)
    ensures Goes(f, s, []) && AfterWrites(f, s, []) == s
  {
  }

  lemma OneMoreWrite(f: Format, s: GoodStore, ws: seq<Done>, w: Done)
    requires Goes(f, s, ws) && Allowed(f, AfterWrites(f, s, ws), w)
    ensures Goes(f, s, ws + [w]) && ValidRun(f, w.before + [Event.Write(w.record, w.now)])
    ensures AfterWrites(f, s, ws + [w]) == Run(f, AfterWrites(f, s, ws), w.before + [Event.Write(w.record, w.now)])
  {
    hide FileStore.WriteToFile, ValidEvent, Reopening, Run, ValidRun;
    var more := ws + [w];
    assert more[..|ws|] == ws;
    assert Proper(f, more);
    OneEventRun(f, Run(f, AfterWrites(f, s, ws), w.before), Event.Write(w.record, w.now));
    RunConcat(f, AfterWrites(f, s, ws), w.before, [Event.Write(w.record, w.now)]);
    forall i | 0 <= i < |more| ensures Allowed(f, AfterWrites(f, s, more[..i]), more[i]) {
      if i < |ws| {
        assert more[..i] == ws[..i] && more[i] == ws[i];
      }
    }
  }

  /** The record a batch stopped at, if it stopped at one. */
  function NextOf(batch: seq<Record>, k: nat): seq<Record> {
    if k < |batch| then [batch[k]] else []
  }

  /** A file operation failed, or the directory refused the record: its hour's file has no whole header. */
  ghost predicate CauseOfFailure(f: Format, s: GoodStore, batch: seq<Record>, turns: seq<Turn>, k: nat)
    requires AreRecords(f, batch) && |batch| <= |turns|
  {
    if k < |batch| then
      || !turns[k].write.Works? || !turns[k].reopen.Undisturbed?
      || !FileStore.WriteToFile(f, s, batch[k], turns[k].now).ok
    else
      0 < k == |batch| && turns[k - 1].count.PersistFails?
  }

  /** What draining a batch does to the directory and the shared fields: ws were written. */
  ghost predicate Drained(f: Format, s: GoodStore, x: Fields, turns: seq<Turn>, ws: seq<Done>, left: seq<Event>,
                          failed: bool, t: Store, y: Fields)
  {
    var n, k := BatchSize(|x.queue|), |ws|;
    && k <= n && 0 < n <= |turns| && Matches(ws, x.queue[..n], turns) && Goes(f, s, ws)
    && ValidRun(f, left) && t == Run(f, AfterWrites(f, s, ws), left)
    && (!failed ==>
          k == n && left == [Event.Persist] && y == x.(queue := x.queue[n..], written := x.written + n))
    && (failed ==>
          && Recorded(left) <= NextOf(x.queue[..n], k) && t.file.NoFile?
          && y == x.(queue := [], running := false, accepting := false, looping := false,
                     written := x.written + k, dropped := x.dropped + (|x.queue| - k)))
  }

  // ------------------------------------------------------------------ what faults leave

  function RepairFaultOf(fault: Fault): RepairFault {
    if fault.RepairFails? then fault.how else NoFault
  }

  /** How many slots of a file repair can read: a number beyond them all when none is unreadable. */
  function SlotsRead(reopen: Reopen, b: seq<byte>): nat {
    if reopen.ShortRead? then reopen.readable else |b|
  }

  /** The file is found and goes through repair. */
  predicate Repairs(s: Store, name: string, reopen: Reopen) {
    name in s.disk && !reopen.StatFails?
  }

  /** The directory as opening a file will treat it. */
  function Prepared(f: Format, s: GoodStore, name: string, reopen: Reopen): GoodStore {
    match reopen
    case Undisturbed => s
    case StatFails => EraseFile(s, name)
    case ShortRead(readable) => RepairUpTo(f, s, name, readable)
  }

  /**
   What reopening a file silently loses: complete records, exactly when repair cannot read
   a slot before the end of them, or when the file is taken for missing and has some.
   */
  lemma ReopenLosesExactlyWhen(f: Format, s: GoodStore, name: string, reopen: Reopen)
    requires Sound(f, s) && s.file.NoFile? && IsHourlyName(f.prefix, name)
    ensures DurableKept(f, s, Prepared(f, s, name, reopen)) <==>
            match reopen
            case Undisturbed => true
            case StatFails => Durable(f, s, name) == []
            case ShortRead(readable) => readable >= |Durable(f, s, name)|
  {
    hide Sound, DurableKept, Durable, RepairUpTo, EraseFile, IsHourlyName;
    match reopen
    case Undisturbed => SameStoreKept(f, s);
    case StatFails => StepIsSound(f, s, Erase(name));
    case ShortRead(readable) => StepIsSound(f, s, Repair(name, readable));
  }

  /** The directory after an hour's file could not be opened. */
  function LeftByOpening(f: Format, s: GoodStore, name: string, reopen: Reopen, fault: Fault): GoodStore {
    if Repairs(s, name, reopen) then
      var readable := SlotsRead(reopen, s.disk[name]);
      match fault
      case RepairFails(CannotReopen) => CrashInRepair(f, s, name, readable)
      case RepairFails(CannotCount(written)) =>
        if written then RepairUpTo(f, s, name, readable) else CrashInRepair(f, s, name, readable)
      case OpenFails => RepairUpTo(f, s, name, readable)
      case _ => s
    else match fault
         case HeaderFails(kept) => CrashKeeping(OpenHourFile(f, EraseFile(s, name), name).store, HeaderKept(kept))
         case _ => s
  }

  function HeaderKept(kept: nat): nat {
    if kept < HEADER then kept else HEADER
  }

  lemma PersistEvents(f: Format, s: GoodStore, kept: nat)
    ensures ValidRun(f, [Event.Persist]) && Run(f, s, [Event.Persist]) == FileStore.PersistHeaderCount(s)
    ensures ValidRun(f, [Crash(kept)]) && Run(f, s, [Crash(kept)]) == CrashKeeping(s, kept)
    ensures ValidRun(f, [Event.Persist, Crash(0)])
    ensures Run(f, s, [Event.Persist, Crash(0)]) == CrashKeeping(FileStore.PersistHeaderCount(s), 0)
    ensures Recorded([Event.Persist]) == [] && Recorded([Crash(kept)]) == [] && Recorded([Event.Persist, Crash(0)]) == []
  {
    OneEventRun(f, s, Event.Persist);
    OneEventRun(f, s, Crash(kept));
    TwoEventsRun(f, s, Event.Persist, Crash(0));
  }

  lemma NothingRecordedFits(left: seq<Event>, r: Record)
    requires Recorded(left) == []
    ensures Recorded(left) <= [r]
  {
  }

  lemma WriteEvents(f: Format, s: GoodStore, r: Record, now: int, kept: nat)
    requires IsRecord(f, r) && InRange(FilingTs(f, r, now))
    ensures ValidRun(f, [Event.Write(r, now)])
    ensures Run(f, s, [Event.Write(r, now)]) == FileStore.WriteToFile(f, s, r, now).store
    ensures ValidRun(f, [Event.Write(r, now), Crash(kept)])
    ensures Run(f, s, [Event.Write(r, now), Crash(kept)]) == CrashKeeping(FileStore.WriteToFile(f, s, r, now).store, kept)
    ensures Recorded([Event.Write(r, now)]) == [r] && Recorded([Event.Write(r, now), Crash(kept)]) == [r]
  {
    hide FileStore.WriteToFile, FilingTs, InRange, CrashKeeping;
    OneEventRun(f, s, Event.Write(r, now));
    TwoEventsRun(f, s, Event.Write(r, now), Crash(kept));
  }

  lemma HeaderSize(f: Format)
    ensures |Header(f, 0)| == HEADER
  {
  }

  lemma NameIsNotEmpty(f: Format, r: Record, now: int)
    requires IsRecord(f, r)
    ensures FileFor(f, r, now) != ""
  {
  }

  lemma OpensItsFile(f: Format, s: GoodStore, name: string)
    ensures OpenHourFile(f, s, name).ok ==> OpenHourFile(f, s, name).store.file.Open?
    ensures OpenHourFile(f, s, name).ok ==> OpenHourFile(f, s, name).store.file.name == name
  {
  }

  /** There are fewer slots in a file than bytes. */
  lemma {:induction false} FewSlots(f: Format, body: seq<byte>)
    ensures |Slots(f, body)| <= |body|
    decreases |body|
  {
    if |body| >= f.size {
      FewSlots(f, body[f.size..]);
    }
  }

  lemma WholeFile(f: Format, b: seq<byte>)
    requires |b| >= HEADER
    ensures Legible(f, b, |b|) == b && |SlotsIn(f, b)| < |b|
  {
    hide Slots;
    FewSlots(f, Body(b));
    AllLegible(f, Body(b), |b|);
    assert b == b[..HEADER] + Body(b);
  }

  /** Undisturbed, opening succeeds where the directory allows it. */
  lemma OpensUndisturbed(f: Format, s: GoodStore, name: string)
    ensures Prepared(f, s, name, Undisturbed) == s
    ensures Repairs(s, name, Undisturbed) ==>
              OpenHourFile(f, s, name).ok == RepairSucceeds(f, s.disk[name], SlotsRead(Undisturbed, s.disk[name]), NoFault)
    ensures !Repairs(s, name, Undisturbed) ==> OpenHourFile(f, s, name).ok
  {
    hide HeaderOk, Legible, CutBack, Repaired, GoodCount;
  }

  /** The outcome of repair, as the value-level operations see it. */
  lemma RepairLeaves(f: Format, s: GoodStore, name: string, reopen: Reopen, fault: Fault)
    requires s.file.NoFile? && Repairs(s, name, reopen)
    ensures var b := s.disk[name];
      var readable := SlotsRead(reopen, b);
      && (RepairSucceeds(f, b, readable, RepairFaultOf(fault)) ==> HeaderOk(f, b))
      && (HeaderOk(f, b) ==> |b| >= HEADER && HEADER <= |Repaired(f, Legible(f, b, readable))| <= |b|)
      && (!RepairSucceeds(f, b, readable, RepairFaultOf(fault)) ==>
            LeftByOpening(f, s, name, reopen, fault)
            == Store(s.disk[name := LeftByRepair(f, b, readable, RepairFaultOf(fault))], NoFile))
      && (RepairSucceeds(f, b, readable, RepairFaultOf(fault)) ==>
            var repaired := Repaired(f, Legible(f, b, readable));
            && (fault.OpenFails? ==> LeftByOpening(f, s, name, reopen, fault) == Store(s.disk[name := repaired], NoFile))
            && OpenHourFile(f, Prepared(f, s, name, reopen), name)
               == Outcome(Store(s.disk[name := repaired],
                                FileStore.Open(name, [], GoodCount(f, Body(Legible(f, b, readable))))), true))
  {
    hide GoodCount, LegibleBody, CutBack, Legible, Repaired, HeaderOk, RepairSucceeds;
    var b := s.disk[name];
    var readable := SlotsRead(reopen, b);
    assert s.disk[name := b] == s.disk;
    RepairNeeds(f, b, readable, fault);
    if HeaderOk(f, b) {
      HasHeader(f, b);
      LegibleCut(f, b, readable);
      WholeFile(f, b);
      RepairedAgain(f, b, readable);
    }
  }

  lemma RepairNeeds(f: Format, b: seq<byte>, readable: nat, fault: Fault)
    ensures RepairSucceeds(f, b, readable, RepairFaultOf(fault)) ==> HeaderOk(f, b)
    ensures HeaderOk(f, b) && RepairFaultOf(fault).NoFault? ==> RepairSucceeds(f, b, readable, RepairFaultOf(fault))
  {
  }

  /** A repaired file is found in order, with the same count, when it is opened. */
  lemma RepairedAgain(f: Format, b: seq<byte>, readable: nat)
    requires HeaderOk(f, b)
    ensures |b| >= HEADER
    ensures var r := Repaired(f, Legible(f, b, readable));
      && HeaderOk(f, r) && |r| >= HEADER && Repaired(f, r) == r
      && GoodCount(f, Body(r)) == GoodCount(f, Body(Legible(f, b, readable)))
  {
    hide GoodCount, LegibleBody, CutBack, Legible, Repaired, HeaderOk, Slots;
    HasHeader(f, b);
    LegibleHeader(f, b, readable);
    var c := Legible(f, b, readable);
    HasHeader(f, c);
    RepairedFile(f, c);
    RepairTwice(f, c);
    var r := Repaired(f, c);
    HasHeader(f, r);
    GoodPrefixIsLongest(f, Body(c));
    AllGood(f, Body(r));
  }

  lemma CreatedAnew(f: Format, s: GoodStore, name: string, fault: Fault)
    requires s.file.NoFile?
    ensures OpenHourFile(f, EraseFile(s, name), name)
         == Outcome(Store(s.disk[name := []], FileStore.Open(name, Header(f, 0), 0)), true)
    ensures name !in s.disk ==> EraseFile(s, name) == s
    ensures forall readable :: name !in s.disk ==> RepairUpTo(f, s, name, readable) == s
    ensures fault.HeaderFails? ==>
              CrashKeeping(OpenHourFile(f, EraseFile(s, name), name).store, HeaderKept(fault.kept))
              == Store(s.disk[name := Header(f, 0)[..HeaderKept(fault.kept)]], NoFile)
  {
    hide HeaderOk, Repaired, CutBack, GoodCount;
    HeaderSize(f);
    assert (s.disk - {name})[name := []] == s.disk[name := []];
    if fault.HeaderFails? {
      var part := Header(f, 0)[..HeaderKept(fault.kept)];
      assert [] + part == part;
      assert s.disk[name := []][name := part] == s.disk[name := part];
    }
    if name !in s.disk {
      assert s.disk - {name} == s.disk;
    }
  }

  // ------------------------------------------------------------------ as events

  lemma PlainReopening(f: Format, r: Record, now: int)
    requires IsRecord(f, r)
    ensures Reopening(f, r, now, [])
  {
  }

  /** What opening the file did, as events after closing the previous one. */
  lemma PreparingEvents(f: Format, s: GoodStore, r: Record, now: int, reopen: Reopen) returns (before: seq<Event>)
    requires IsRecord(f, r) && InRange(FilingTs(f, r, now))
    ensures ValidRun(f, before) && Recorded(before) == [] && Reopening(f, r, now, before)
    ensures reopen.Undisturbed? ==> before == [] && Run(f, s, before) == s
    ensures !reopen.Undisturbed? ==>
              (Run(f, s, before) == Prepared(f, FileStore.CloseCurrentFile(s), FileFor(f, r, now), reopen)
               && Run(f, s, before).file.NoFile?
               && FileStore.CloseCurrentFile(Run(f, s, before)) == Run(f, s, before))
  {
    hide FilingTs, InRange, FileFor, FileStore.CloseCurrentFile, RepairUpTo, EraseFile, IsHourlyName;
    NameIsHourly(f, r, now);
    var name := FileFor(f, r, now);
    CloseEvents(f, s);
    PreparedIsClosed(f, FileStore.CloseCurrentFile(s), name, reopen);
    CloseEvents(f, Prepared(f, FileStore.CloseCurrentFile(s), name, reopen));
    match reopen
    case Undisturbed =>
      EmptyRun(f, s);
      before := [];
    case StatFails =>
      TwoEventsRun(f, s, Event.Close, Erase(name));
      before := [Event.Close, Erase(name)];
    case ShortRead(readable) =>
      TwoEventsRun(f, s, Event.Close, Repair(name, readable));
      before := [Event.Close, Repair(name, readable)];
  }

  lemma PreparedIsClosed(f: Format, s: GoodStore, name: string, reopen: Reopen)
    requires s.file.NoFile?
    ensures Prepared(f, s, name, reopen).file.NoFile?
  {
    hide HeaderOk, Repaired, Legible;
  }

  lemma Joined(f: Format, s: GoodStore, before: seq<Event>, last: seq<Event>, r: Record)
    requires ValidRun(f, before) && ValidRun(f, last) && Recorded(before) == [] && Recorded(last) == [r]
    ensures ValidRun(f, before + last) && Run(f, s, before + last) == Run(f, Run(f, s, before), last)
    ensures Recorded(before + last) == [r]
  {
    hide Run, ValidRun, Recorded;
    RunConcat(f, s, before, last);
    RecordedConcat(before, last);
  }

  /** Writing, counting, closing and crashing lose nothing. */
  predicate AllHarmless(es: seq<Event>) {
    forall i :: 0 <= i < |es| ==> es[i].Persist? || es[i].Close? || es[i].Crash? || es[i].Write?
  }

  lemma NoLossInClosing(f: Format, s: GoodStore, left: seq<Event>)
    requires ValidRun(f, left)
    requires AllHarmless(left)
    ensures NoLoss(f, s, left)
  {
    hide Run;
    forall i | 0 <= i < |left| ensures !Loses(f, Run(f, s, left[..i]), left[i]) {
    }
  }

  lemma NoLossInCounting(f: Format, s: GoodStore)
    ensures ValidRun(f, []) && NoLoss(f, s, [])
    ensures ValidRun(f, [Event.Persist]) && NoLoss(f, s, [Event.Persist])
  {
    NoLossInClosing(f, s, []);
    NoLossInClosing(f, s, [Event.Persist]);
  }

  lemma NoLossInWriting(f: Format, s: GoodStore, r: Record, now: int, last: seq<Event>)
    requires ValidRun(f, last)
    requires last == [Event.Write(r, now)] || exists kept :: last == [Event.Write(r, now), Crash(kept)]
    ensures NoLoss(f, s, last) && [] + last == last
  {
    NoLossInClosing(f, s, last);
  }

  /** A failed opening, as events after closing the previous file. */
  lemma OpeningEvents(f: Format, s: GoodStore, r: Record, now: int, reopen: Reopen, fault: Fault) returns (left: seq<Event>)
    requires IsRecord(f, r) && InRange(FilingTs(f, r, now))
    ensures ValidRun(f, left) && Recorded(left) <= [r]
    ensures Run(f, s, left) == LeftByOpening(f, FileStore.CloseCurrentFile(s), FileFor(f, r, now), reopen, fault)
    ensures reopen.Undisturbed? ==> NoLoss(f, s, left)
  {
    hide FilingTs, InRange, HeaderOk, Run, Stamp, Recorded, ValidRun, FileStore.CloseCurrentFile, LeftByOpening,
         OpenHourFile, CrashInRepair, RepairUpTo, CrashKeeping, FileFor, NoLoss, IsHourlyName;
    var name, t := FileFor(f, r, now), FileStore.CloseCurrentFile(s);
    CloseEvents(f, s);
    NameIsHourly(f, r, now);
    NoLossInClosing(f, s, [Event.Close]);
    var kind := OpeningCases(f, t, name, reopen, fault);
    if kind == 0 {
      left := [Event.Close];
    } else if kind == 1 {
      var readable := SlotsRead(reopen, t.disk[name]);
      TwoEventsRun(f, s, Event.Close, RepairCrash(name, readable));
      left := [Event.Close, RepairCrash(name, readable)];
      if reopen.Undisturbed? {
        NoLossInRepair(f, s, name);
      }
    } else if kind == 2 {
      var readable := SlotsRead(reopen, t.disk[name]);
      TwoEventsRun(f, s, Event.Close, Repair(name, readable));
      left := [Event.Close, Repair(name, readable)];
      if reopen.Undisturbed? {
        NoLossInRepair(f, s, name);
      }
    } else {
      left := HeaderEvents(f, s, r, now, HeaderKept(fault.kept), reopen.StatFails?);
    }
  }

  /** 0: nothing happened, 1: stopped halfway through repair, 2: repaired, 3: created, part of the header lost. */
  lemma OpeningCases(f: Format, t: GoodStore, name: string, reopen: Reopen, fault: Fault) returns (kind: nat)
    ensures var u := LeftByOpening(f, t, name, reopen, fault);
      && (kind == 0 ==> u == t)
      && (kind == 1 ==> name in t.disk && u == CrashInRepair(f, t, name, SlotsRead(reopen, t.disk[name])))
      && (kind == 2 ==> name in t.disk && u == RepairUpTo(f, t, name, SlotsRead(reopen, t.disk[name])))
      && (kind >= 3 ==>
            fault.HeaderFails? && (reopen.StatFails? || name !in t.disk)
            && u == CrashKeeping(OpenHourFile(f, EraseFile(t, name), name).store, HeaderKept(fault.kept)))
  {
    hide CrashInRepair, RepairUpTo, CrashKeeping, OpenHourFile, EraseFile;
    kind := if Repairs(t, name, reopen) then
              match fault
              case RepairFails(CannotReopen) => 1
              case RepairFails(CannotCount(written)) => if written then 2 else 1
              case OpenFails => 2
              case _ => 0
            else if fault.HeaderFails? then 3 else 0;
  }

  lemma NoLossInRepair(f: Format, s: GoodStore, name: string)
    requires IsHourlyName(f.prefix, name) && name in FileStore.CloseCurrentFile(s).disk
    ensures var readable := |FileStore.CloseCurrentFile(s).disk[name]|;
      && ValidRun(f, [Event.Close, RepairCrash(name, readable)])
      && ValidRun(f, [Event.Close, Repair(name, readable)])
      && NoLoss(f, s, [Event.Close, RepairCrash(name, readable)]) && NoLoss(f, s, [Event.Close, Repair(name, readable)])
  {
    hide FileStore.CloseCurrentFile, IsHourlyName, SlotsIn, CrashInRepair, RepairUpTo;
    var t := FileStore.CloseCurrentFile(s);
    var b := t.disk[name];
    DurableIsShort(f, b);
    CloseEvents(f, s);
    var d, e := RepairCrash(name, |b|), Repair(name, |b|);
    assert [Event.Close, d][..1] == [Event.Close] && [Event.Close, e][..1] == [Event.Close];
    TwoEventsRun(f, s, Event.Close, d);
    TwoEventsRun(f, s, Event.Close, e);
  }

  lemma DurableIsShort(f: Format, b: seq<byte>)
    ensures |SlotsIn(f, b)| <= |b|
  {
    if |b| >= HEADER {
      FewSlots(f, Body(b));
    }
  }

  /** The file was created, its header cut off by a failure. */
  lemma HeaderEvents(f: Format, s: GoodStore, r: Record, now: int, kept: nat, erased: bool) returns (left: seq<Event>)
    requires IsRecord(f, r) && InRange(FilingTs(f, r, now)) && kept <= HEADER
    requires erased || FileFor(f, r, now) !in FileStore.CloseCurrentFile(s).disk
    ensures ValidRun(f, left) && Recorded(left) <= [r] && (!erased ==> NoLoss(f, s, left))
    ensures Run(f, s, left)
         == CrashKeeping(OpenHourFile(f, EraseFile(FileStore.CloseCurrentFile(s), FileFor(f, r, now)), FileFor(f, r, now)).store,
                         kept)
  {
    hide FilingTs, InRange, Run, Stamp, Recorded, ValidRun, FileFor, NoLoss, IsHourlyName, HeaderOk, Repaired, GoodCount,
         FileStore.PersistHeaderCount;
    var name, t := FileFor(f, r, now), FileStore.CloseCurrentFile(s);
    NameIsHourly(f, r, now);
    CloseEvents(f, s);
    CloseEvents(f, t);
    CloseEvents(f, EraseFile(t, name));
    TwoEventsRun(f, s, Event.Close, Erase(name));
    CreatedAnew(f, t, name, Works);
    HeaderSize(f);
    var last := [Event.Write(r, now), Crash(kept)];
    CrashBeforeAppend(f, OpenHourFile(f, EraseFile(t, name), name).store, r, kept);
    if erased {
      WriteEvents(f, EraseFile(t, name), r, now, kept);
      left := [Event.Close, Erase(name)] + last;
      Joined(f, s, [Event.Close, Erase(name)], last, r);
    } else {
      WriteEvents(f, t, r, now, kept);
      left := [Event.Close] + last;
      Joined(f, s, [Event.Close], last, r);
      NoLossInClosing(f, s, left);
    }
  }

  lemma NameIsHourly(f: Format, r: Record, now: int)
    requires IsRecord(f, r) && InRange(FilingTs(f, r, now))
    ensures IsHourlyName(f.prefix, FileFor(f, r, now))
  {
    hide FilingTs, InRange, HourlyFileName, IsHourlyName;
    GeneratedNameIsRecognised(f.prefix, f.prefix, FilingTs(f, r, now));
  }

  lemma CrashBeforeAppend(f: Format, s: GoodStore, r: Record, kept: nat)
    requires IsRecord(f, r) && (s.file.Open? ==> kept <= |s.file.pending|)
    ensures CrashKeeping(Append(f, s, r), kept) == CrashKeeping(s, kept)
  {
    hide Stamp;
    if s.file.Open? {
      assert (s.file.pending + Stamp(f, r))[..kept] == s.file.pending[..kept];
    }
  }
}
