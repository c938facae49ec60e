/**
 Replay: src/replay/record_replayer.h, and what it returns for directories the writer
 leaves behind.
 */
module RecordReplayer {
  import opened ByteCodec
  import opened RecordFormat
  import opened DataDirectory
  import opened Options
  import opened TextOrder
  import opened FileRoll
  import opened FileStore
  import opened RecordReader
  import opened ReplayTheory
  import opened StoreHistory
  import opened SharedDirectory

  datatype ReplayResult = ReplayResult(
    recordsReplayed: nat, headerRecordCount: nat, completed: bool,
    fileError: bool, callbackError: bool, countMismatch: bool)

  const NOTHING := ReplayResult(0, 0, false, false, false, false)

  /** A missing callback, or one that may throw at its k-th call. */
  datatype Callback = NoCallback | Callback(throwsAt: Option<nat>)

  predicate Throws(callback: Callback, call: nat) {
    callback.Callback? && callback.throwsAt == Some(call)
  }

  /** How many records the callback is given, and how many of them it takes. */
  function CallsMade(callback: Callback, available: nat): nat {
    if callback.Callback? && callback.throwsAt.Some? && callback.throwsAt.value < available
    then callback.throwsAt.value + 1 else available
  }

  ghost predicate Stopped(callback: Callback, available: nat) {
    callback.Callback? && callback.throwsAt.Some? && callback.throwsAt.value < available
  }

  /** A 64-bit counter. */
  function Wrap(n: nat): nat {
    n % U64
  }

  class RecordReplayer {
    constructor () {
    }

    /** The delivery loop: one call per record, until the reader stops or the callback throws. */
    method Deliver(reader: BinaryRecordReader, callback: Callback)
      returns (replayed: nat, threw: bool, calls: seq<Record>)
      requires reader.Valid() && !reader.readError && callback.Callback?
      modifies reader
      ensures var scan := old(reader.Ahead());
              var n := |scan.delivered|;
              && calls == scan.delivered[..CallsMade(callback, n)]
              && replayed == Wrap(if Stopped(callback, n) then callback.throwsAt.value else n)
              && threw == Stopped(callback, n)
              && reader.readError == (!Stopped(callback, n) && scan.failed)
      ensures reader.totalRecordCount == old(reader.totalRecordCount) && reader.windowed == old(reader.windowed)
    {
      hide ScanRest, Wrap, Stopped, CallsMade, Throws;
      WrapZero();
      NeverStopped(callback, 0);
      ghost var scan := reader.Ahead();
      replayed, threw, calls := 0, false, [];
      var more, record := reader.ReadNext();
      while more
        invariant reader.Valid()
        invariant reader.totalRecordCount == old(reader.totalRecordCount) && reader.windowed == old(reader.windowed)
        invariant !Stopped(callback, |calls|) && replayed == Wrap(|calls|)
        invariant more ==> calls + ([record] + reader.Ahead().delivered) == scan.delivered
        invariant more ==> reader.Ahead().failed == scan.failed && !reader.readError
        invariant !more ==> calls == scan.delivered && reader.readError == scan.failed
        decreases |scan.delivered| - |calls|, more
      {
        ghost var ahead := reader.Ahead().delivered;
        OneMoreCall(calls, record, ahead, scan.delivered);
        StopsHere(callback, |calls|, |scan.delivered|);
        threw := Throws(callback, |calls|);
        calls := calls + [record];
        if threw {
          return;
        }
        WrapNext(|calls| - 1);
        replayed := Wrap(replayed + 1);
        more, record := reader.ReadNext();
        assert more ==> ahead == [record] + reader.Ahead().delivered;
      }
      NeverStopped(callback, |calls|);
      assert scan.delivered[..|calls|] == calls;
    }

    /** calls are the records handed to the callback, in order. */
    method ReplayAll(f: Format, dir: DataDir, callback: Callback, window: TimeWindow)
      returns (result: ReplayResult, calls: seq<Record>, ghost files: seq<string>)
      ensures IsListing(files, f.prefix, dir.files.Keys, window)
      ensures callback.NoCallback? ==> result == NOTHING.(callbackError := true) && calls == []
      ensures callback.Callback? && !CanOpen(f, dir.files, files, window) ==>
                result == NOTHING.(fileError := true) && calls == []
      ensures callback.Callback? && CanOpen(f, dir.files, files, window) ==>
                var scan := ScanFiles(f, dir.files, files, window);
                var n := |scan.delivered|;
                && calls == scan.delivered[..CallsMade(callback, n)]
                && result.recordsReplayed == (if Stopped(callback, n) then callback.throwsAt.value else n) % U64
                && result.callbackError == Stopped(callback, n)
                && result.fileError == (!Stopped(callback, n) && scan.failed)
                && result.headerRecordCount == ClaimedCount(dir.files, files) % U64
                && result.countMismatch == (!result.fileError && window.Empty() && result.headerRecordCount > 0
                                            && result.recordsReplayed != result.headerRecordCount)
                && result.completed == (!result.fileError && !result.callbackError && !result.countMismatch)
    {
      hide ScanFiles, IsListing, CanOpen, HeaderCount;
      result, calls := NOTHING, [];
      if callback.NoCallback? {
        files := ListingOf(f.prefix, dir.files.Keys, window);
        result := result.(callbackError := true);
        return;
      }
      var reader := new BinaryRecordReader(f, dir);
      var ok;
      ok, files := reader.Open(window);
      if !ok {
        result := result.(fileError := true);
        return;
      }
      var replayed, threw;
      replayed, threw, calls := Deliver(reader, callback);
      result := result.(recordsReplayed := replayed, callbackError := threw);
      if reader.readError {
        result := result.(fileError := true);
      }
      result := result.(headerRecordCount := reader.totalRecordCount);
      if !result.fileError && !reader.windowed && result.headerRecordCount > 0
         && result.recordsReplayed != result.headerRecordCount {
        result := result.(countMismatch := true);
      }
      reader.Close();
      result := result.(completed := !result.fileError && !result.callbackError && !result.countMismatch);
    }
  }

  lemma WrapZero()
    ensures Wrap(0) == 0
  {
  }

  lemma WrapNext(n: nat)
    ensures Wrap(Wrap(n) + 1) == Wrap(n + 1)
  {
  }

  lemma StopsHere(callback: Callback, k: nat, n: nat)
    requires k < n && !Stopped(callback, k)
    ensures Throws(callback, k) ==>
              Stopped(callback, n) && callback.throwsAt == Some(k) && CallsMade(callback, n) == k + 1
    ensures !Throws(callback, k) ==> !Stopped(callback, k + 1)
  {
  }

  lemma NeverStopped(callback: Callback, n: nat)
    ensures !Stopped(callback, n) ==> CallsMade(callback, n) == n
    ensures !Stopped(callback, 0)
  {
  }

  lemma OneMoreCall(calls: seq<Record>, record: Record, ahead: seq<Record>, all: seq<Record>)
    requires calls + ([record] + ahead) == all
    ensures calls + [record] + ahead == all
    ensures |calls| < |all| && calls + [record] == all[..|calls| + 1]
  {
  }

  /** The callback is called for every record up to and including the first it throws on. */
  lemma CallbackStops(callback: Callback, n: nat)
    ensures Stopped(callback, n) <==> exists k :: 0 <= k < n && Throws(callback, k)
    ensures CallsMade(callback, n) <= n
    ensures forall k :: 0 <= k < CallsMade(callback, n) - 1 ==> !Throws(callback, k)
    ensures if Stopped(callback, n) then CallsMade(callback, n) > 0 && Throws(callback, CallsMade(callback, n) - 1)
            else CallsMade(callback, n) == n
  {
    if Stopped(callback, n) {
      assert Throws(callback, callback.throwsAt.value);
    }
  }

  /**
   A directory of whole headers opens exactly when the window contains some time and there
   is either a file or a bound: with a bound, no matching file is no error.
   */
  lemma OpensExactlyWhen(f: Format, disk: Disk, files: seq<string>, window: TimeWindow)
    requires AllReadable(f, disk) && IsListing(files, f.prefix, disk.Keys, window)
    ensures CanOpen(f, disk, files, window) <==>
            && (exists ts :: window.Contains(ts))
            && ((exists n :: n in disk && IsHourlyName(f.prefix, n)) || window.fromUs.Some? || window.toUs.Some?)
  {
    hide IsHourlyName, HeaderOk, Less;
    WindowMeaning(window);
    HeadIsMember(files);
    if n :| n in disk && IsHourlyName(f.prefix, n) && window.Empty() {
      assert NameInWindow(f.prefix, n, window);
      assert n in files;
    }
  }

  /**
   A replay of a window with a bound completes on every directory the writer can leave whose
   headers are whole, matching files or not, and calls the callback with exactly the
   records of the full replay that lie in the window.
   */
  method ReplayWindow(replayer: RecordReplayer, f: Format, dir: DataDir, window: TimeWindow,
                      ghost start: Disk, ghost es: seq<Event>, ghost all: seq<string>)
    returns (result: ReplayResult, calls: seq<Record>)
    requires NoFilesOf(f, start) && ValidRun(f, es) && TimelyRun(f, es)
    requires Run(f, Store(start, NoFile), es) == Store(dir.files, NoFile) && AllReadable(f, dir.files)
    requires IsListing(all, f.prefix, dir.files.Keys, NO_WINDOW)
    requires window.Valid() && !window.Empty()
    ensures result == ReplayResult(|calls| % U64, result.headerRecordCount, true, false, false, false)
    ensures PrunesSafely(window) ==> calls == InWindow(f, ScanFiles(f, dir.files, all, NO_WINDOW).delivered, window)
  {
    hide ScanFiles, IsListing, Run, TimelyRun, NoFilesOf, PrunesSafely, InWindow, AllReadable, CanOpen, Sound;
    ghost var files;
    result, calls, files := replayer.ReplayAll(f, dir, Callback(None), window);
    WindowedOpen(f, dir.files, files, window);
    FreshStart(f, start);
    RunIsSound(f, Store(start, NoFile), es);
    CompleteWindow(f, dir.files, files, window);
    ghost var scan := ScanFiles(f, dir.files, files, window);
    assert scan.delivered[..|scan.delivered|] == scan.delivered;
    if PrunesSafely(window) {
      WindowedReplayIsFilteredReplay(f, start, es, all, files, window);
    }
  }

  lemma WindowedOpen(f: Format, disk: Disk, files: seq<string>, window: TimeWindow)
    requires AllReadable(f, disk) && IsListing(files, f.prefix, disk.Keys, window)
    requires window.Valid() && !window.Empty()
    ensures CanOpen(f, disk, files, window)
  {
    hide IsHourlyName, HeaderOk, Less;
  }

  lemma CompleteWindow(f: Format, disk: Disk, files: seq<string>, window: TimeWindow)
    requires Sound(f, Store(disk, NoFile)) && AllReadable(f, disk)
    requires IsListing(files, f.prefix, disk.Keys, window)
    ensures !ScanFiles(f, disk, files, window).failed
  {
    hide Sound, AllReadable, IsHourlyName, Less, ScanFiles;
    CompleteScan(f, disk, files, window);
  }

  /**
   Everything written in a crash-free history comes back: a full replay completes
   exactly when something was written, and calls the callback with the written
   records, by hour and in writing order within the hour, changed only in crc32.  The
   directory may hold anything else beside the stream's own files.
   */
  method ReplayHistory(replayer: RecordReplayer, f: Format, dir: DataDir, ghost start: Disk, ghost es: seq<Event>)
    returns (result: ReplayResult, calls: seq<Record>)
    requires NoFilesOf(f, start) && ValidRun(f, es) && CrashFree(es) && TimelyRun(f, es)
    requires SameStream(f, Run(f, Store(start, NoFile), es), Store(dir.files, NoFile))
    ensures result.completed == (Written(f, es) != [])
    ensures AreRecords(f, calls) && StableByHour(f, Written(f, es), calls)
    ensures result.completed ==> result.recordsReplayed == |calls| % U64 == result.headerRecordCount
  {
    hide ScanFiles, IsListing, CanOpen, HeaderCount, Run, Written, StableByHour, AreRecords, SameFiles;
    ghost var files;
    result, calls, files := replayer.ReplayAll(f, dir, Callback(None), NO_WINDOW);
    ghost var end := Run(f, Store(start, NoFile), es).disk;
    ListedAreHourly(f, dir.files.Keys, files);
    ListingIsLocal(f, end, dir.files, files, NO_WINDOW);
    ScanIsLocal(f, end, dir.files, files, NO_WINDOW);
    RoundTrip(f, start, es, files);
    ClaimsAreLocal(f, end, dir.files, files);
    ghost var scan := ScanFiles(f, dir.files, files, NO_WINDOW);
    assert scan.delivered[..|scan.delivered|] == scan.delivered;
    if Written(f, es) == [] {
      StableNothing(f);
    }
  }

  lemma ListedAreHourly(f: Format, present: set<string>, files: seq<string>)
    requires IsListing(files, f.prefix, present, NO_WINDOW)
    ensures forall n :: n in files ==> IsHourlyName(f.prefix, n)
  {
    hide IsHourlyName;
  }

  lemma StableNothing(f: Format)
    ensures StableByHour(f, [], [])
  {
  }
}
