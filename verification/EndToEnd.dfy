/** From concurrent calls of write() to the callbacks of a replay. */
module EndToEnd {
  import opened RecordFormat
  import opened DataDirectory
  import opened FileStore
  import opened StoreHistory
  import opened SharedDirectory
  import opened WriterProtocol
  import opened WriterRefinement
  import opened RecordReplayer

  /** Everything accepted over all sessions so far. */
  function AllAccepted(s: State): seq<Record> {
    s.acceptedBefore + s.accepted
  }

  ghost predicate HaveTimes(f: Format, rs: seq<Record>) {
    AreRecords(f, rs) && forall i :: 0 <= i < |rs| ==> RecvTs(f, rs[i]) > 0
  }

  /**
   Start from a directory without files of the stream; let any interleaving of
   producers, worker and close() run over any number of sessions; let the writer be
   closed and no file operation have failed.  Then a full replay completes exactly when
   some call to write() was accepted, and it delivers the accepted records: hours in
   order, acceptance order within an hour, changed only in crc32.  Beside the stream's own
   files the directory may hold anything.
   */
  method ReplayAfterClose(replayer: RecordReplayer, f: Format, dir: DataDir, ghost start: Disk, ghost steps: seq<Step>)
    returns (result: ReplayResult, calls: seq<Record>)
    requires NoFilesOf(f, start) && Possible(f, Store(start, NoFile), steps)
    requires After(f, Store(start, NoFile), steps).clean && After(f, Store(start, NoFile), steps).worker == Absent
    requires var s := After(f, Store(start, NoFile), steps);
      && ValidRun(f, s.events)
      && SameFiles(f, Run(f, Store(start, NoFile), s.events).disk, dir.files)
      && HaveTimes(f, AllAccepted(s))
    ensures var s := After(f, Store(start, NoFile), steps);
      && AreRecords(f, calls)
      && StableByHour(f, Stamps(f, AllAccepted(s)), calls)
      && result.completed == (AllAccepted(s) != [])
  {
    hide After, Possible, Run, RecvTs, StableByHour, AreRecords, TimelyRun, NoFilesOf, SameFiles;
    ghost var s := After(f, Store(start, NoFile), steps);
    ClosedWriterHistory(f, Store(start, NoFile), steps);
    result, calls := ReplayHistory(replayer, f, dir, start, s.events);
  }

  /**
   The same while the writer of another stream works in the same directory, their file
   operations interleaved in any way.
   */
  method ReplayBesideAnother(replayer: RecordReplayer, f: Format, g: Format, dir: DataDir, ghost start: Disk,
                             ghost steps: seq<Step>, ghost both: seq<JointEvent>)
    returns (result: ReplayResult, calls: seq<Record>)
    requires f.prefix != g.prefix && NoFilesOf(f, start) && Possible(f, Store(start, NoFile), steps)
    requires After(f, Store(start, NoFile), steps).clean && After(f, Store(start, NoFile), steps).worker == Absent
    requires JointValid(f, g, both) && JointGood(f, g, Joint(start, NoFile, NoFile))
    requires dir.files == JointRun(f, g, Joint(start, NoFile, NoFile), both).disk
    requires var s := After(f, Store(start, NoFile), steps);
      && Lefts(both) == s.events && ValidRun(f, s.events) && HaveTimes(f, AllAccepted(s))
    ensures var s := After(f, Store(start, NoFile), steps);
      && AreRecords(f, calls)
      && StableByHour(f, Stamps(f, AllAccepted(s)), calls)
      && result.completed == (AllAccepted(s) != [])
  {
    hide After, Possible, Run, RecvTs, StableByHour, AreRecords, HaveTimes, NoFilesOf, SameFiles, JointRun, Lefts;
    WritersDoNotInterfere(f, g, Joint(start, NoFile, NoFile), both);
    FilesFlip(f, JointRun(f, g, Joint(start, NoFile, NoFile), both).disk,
              Run(f, Store(start, NoFile), Lefts(both)).disk);
    result, calls := ReplayAfterClose(replayer, f, dir, start, steps);
  }

  lemma FilesFlip(f: Format, a: Disk, b: Disk)
    requires SameFiles(f, a, b)
    ensures SameFiles(f, b, a)
  {
  }

  /** The same for the writer object: what it accepted before close() is what a replay of its directory delivers. */
  method ReplayClosedWriter(replayer: RecordReplayer, w: TracedWriter, ghost start: Disk)
    returns (result: ReplayResult, calls: seq<Record>)
    requires w.Valid() && w.start == Store(start, NoFile) && NoFilesOf(w.writer.f, start)
    requires w.state.worker == Absent && w.state.clean && HaveTimes(w.writer.f, AllAccepted(w.state))
    ensures AreRecords(w.writer.f, calls)
    ensures StableByHour(w.writer.f, Stamps(w.writer.f, AllAccepted(w.state)), calls)
    ensures result.completed == (AllAccepted(w.state) != [])
  {
    hide After, Possible, Run, RecvTs, StableByHour, AreRecords, HaveTimes, NoFilesOf, SameFiles;
    FilesFlip(w.writer.f, w.writer.dir.files, Run(w.writer.f, w.start, w.state.events).disk);
    result, calls := ReplayAfterClose(replayer, w.writer.f, w.writer.dir, start, w.history);
  }
}
