/**
 Histories without a crash: what ends up in which file, and what replaying the
 directory then delivers.
 */
module StoreHistory {
  import opened ByteCodec
  import opened RecordFormat
  import opened DataDirectory
  import opened RecordIntegrity
  import opened TextOrder
  import opened FileRoll
  import opened FileStore
  import opened RecordReader
  import opened ReplayTheory

  /** The records written, stamped, in order. */
  function Written(f: Format, es: seq<Event>): (rs: seq<Record>)
    requires ValidRun(f, es)
    ensures AreRecords(f, rs)
  {
    if es == [] then [] else
      var n := |es| - 1;
      Written(f, es[..n]) + if es[n].Write? then [Stamp(f, es[n].record)] else []
  }

  /** The ones that go to one file. */
  function WrittenTo(f: Format, es: seq<Event>, name: string): (rs: seq<Record>)
    requires ValidRun(f, es)
    ensures AreRecords(f, rs)
  {
    if es == [] then [] else
      var n := |es| - 1;
      WrittenTo(f, es[..n], name)
      + if es[n].Write? && FileFor(f, es[n].record, es[n].now) == name then [Stamp(f, es[n].record)] else []
  }

  /** What the writer does when nothing goes wrong. */
  predicate Ordinary(e: Event) {
    e.Write? || e.Persist? || e.Close?
  }

  predicate CrashFree(es: seq<Event>) {
    forall i :: 0 <= i < |es| ==> Ordinary(es[i])
  }

  /** Every closed file has its whole header, and the header counts its records. */
  ghost predicate CountsExact(f: Format, s: GoodStore) {
    forall n :: n in s.disk && IsHourlyName(f.prefix, n) && !(s.file.Open? && s.file.name == n) ==>
      |s.disk[n]| >= HEADER && HeaderCount(s.disk[n]) == |SlotsIn(f, s.disk[n])| % U64
  }

  ghost predicate AllWritesOk(f: Format, s: GoodStore, es: seq<Event>)
    requires ValidRun(f, es)
  {
    forall i :: 0 <= i < |es| ==> Apply(f, Run(f, s, es[..i]), es[i]).ok
  }

  lemma CloseCountsExact(f: Format, s: GoodStore)
    requires Sound(f, s) && CountsExact(f, s)
    ensures CountsExact(f, PersistHeaderCount(s)) && CountsExact(f, CloseCurrentFile(s))
  {
    hide FromLe, Slots, Belong, Tail;
    match s.file
    case NoFile =>
    case Open(name, pending, count) =>
      var b := s.disk[name];
      PersistedFile(f, name, b, pending, count);
      WithCountKeeps(f, b + pending, count);
  }

  lemma OpenCountsExact(f: Format, s: GoodStore, name: string)
    requires CountsExact(f, s) && s.file.NoFile? && IsHourlyName(f.prefix, name)
    ensures CountsExact(f, OpenHourFile(f, s, name).store)
  {
    hide FromLe, SlotsIn, HeaderOk, Repaired, GoodCount, IsHourlyName, HeaderCount;
  }

  lemma WriteCountsExact(f: Format, s: GoodStore, r: Record, now: int)
    requires Sound(f, s) && CountsExact(f, s) && ValidEvent(f, Write(r, now))
    ensures CountsExact(f, WriteToFile(f, s, r, now).store)
    ensures WriteToFile(f, s, r, now).ok
  {
    hide SlotsIn, Stamp, HourlyFileName, OpenHourFile, PersistHeaderCount, Sound, HeaderCount;
    var name := FileFor(f, r, now);
    GeneratedNameIsRecognised(f.prefix, f.prefix, FilingTs(f, r, now));
    WriteStep(f, s, r, now);
    CloseCountsExact(f, s);
    OpenCountsExact(f, CloseCurrentFile(s), name);
  }

  lemma StepCountsExact(f: Format, s: GoodStore, e: Event)
    requires Sound(f, s) && CountsExact(f, s) && ValidEvent(f, e) && Ordinary(e)
    ensures Apply(f, s, e).ok && CountsExact(f, Apply(f, s, e).store)
    ensures forall n :: Contents(f, Apply(f, s, e).store, n) == Contents(f, s, n)
                + if e.Write? && FileFor(f, e.record, e.now) == n then [Stamp(f, e.record)] else []
  {
    hide Sound, CountsExact, Contents, WriteToFile, PersistHeaderCount, CloseCurrentFile, FileFor, Stamp;
    match e
    case Write(r, now) =>
      WriteStep(f, s, r, now);
      WriteCountsExact(f, s, r, now);
    case Persist =>
      PersistStep(f, s);
      CloseCountsExact(f, s);
    case Close =>
      PersistStep(f, s);
      CloseCountsExact(f, s);
  }

  /** Without crashes no write is refused, and every file receives its records in order. */
  lemma {:induction false} CleanRun(f: Format, s: GoodStore, es: seq<Event>)
    requires Sound(f, s) && CountsExact(f, s) && ValidRun(f, es) && CrashFree(es)
    ensures AllWritesOk(f, s, es) && CountsExact(f, Run(f, s, es))
    ensures forall n :: Contents(f, Run(f, s, es), n) == Contents(f, s, n) + WrittenTo(f, es, n)
  {
    hide Sound, CountsExact, Contents, Apply, FileFor, Stamp;
    if es != [] {
      var n := |es| - 1;
      CleanRun(f, s, es[..n]);
      RunIsSound(f, s, es[..n]);
      StepCountsExact(f, Run(f, s, es[..n]), es[n]);
      forall i | 0 <= i < |es| ensures Apply(f, Run(f, s, es[..i]), es[i]).ok {
        if i < n {
          assert es[..n][..i] == es[..i];
        }
      }
    }
  }

  // ------------------------------------------------------------------- by the hour

  function InHour(f: Format, rs: seq<Record>, hour: int): (hs: seq<Record>)
    requires AreRecords(f, rs)
    ensures AreRecords(f, hs)
  {
    if rs == [] then []
    else (if HourOf(RecvTs(f, rs[0])) == hour then [rs[0]] else []) + InHour(f, rs[1..], hour)
  }

  lemma {:induction false} InHourConcat(f: Format, a: seq<Record>, b: seq<Record>, hour: int)
    requires AreRecords(f, a) && AreRecords(f, b)
    ensures InHour(f, a + b, hour) == InHour(f, a, hour) + InHour(f, b, hour)
  {
    if a == [] {
      assert a + b == b;
    } else {
      assert (a + b)[1..] == a[1..] + b;
      InHourConcat(f, a[1..], b, hour);
    }
  }

  ghost predicate HoursAscending(f: Format, rs: seq<Record>)
    requires AreRecords(f, rs)
  {
    forall i, j :: 0 <= i < j < |rs| ==> HourOf(RecvTs(f, rs[i])) <= HourOf(RecvTs(f, rs[j]))
  }

  /** out holds the records of input, hours in order, and within an hour as in input. */
  ghost predicate StableByHour(f: Format, input: seq<Record>, out: seq<Record>)
    requires AreRecords(f, input) && AreRecords(f, out)
  {
    HoursAscending(f, out) && forall h :: InHour(f, out, h) == InHour(f, input, h)
  }

  lemma {:induction false} InHourMembers(f: Format, rs: seq<Record>, hour: int)
    requires AreRecords(f, rs)
    ensures forall r :: r in InHour(f, rs, hour) <==> r in rs && IsRecord(f, r) && HourOf(RecvTs(f, r)) == hour
  {
    hide HourOf, RecvTs;
    if rs != [] {
      InHourMembers(f, rs[1..], hour);
    }
  }

  /** The specification leaves no freedom. */
  lemma {:induction false} StableOrderIsUnique(f: Format, a: seq<Record>, b: seq<Record>)
    requires AreRecords(f, a) && AreRecords(f, b)
    requires HoursAscending(f, a) && HoursAscending(f, b)
    requires forall h :: InHour(f, a, h) == InHour(f, b, h)
    ensures a == b
  {
    hide HourOf, RecvTs;
    if a == [] || b == [] {
      EmptyByHour(f, a, b);
    } else {
      var h, k := HourOf(RecvTs(f, a[0])), HourOf(RecvTs(f, b[0]));
      FirstHour(f, a, b);
      FirstHour(f, b, a);
      assert h == k;
      assert InHour(f, a, h)[0] == a[0] && InHour(f, b, h)[0] == b[0];
      forall x ensures InHour(f, a[1..], x) == InHour(f, b[1..], x) {
        assert InHour(f, a, x) == InHour(f, b, x);
        assert InHour(f, a[1..], x) == InHour(f, a, x)[if x == h then 1 else 0..];
        assert InHour(f, b[1..], x) == InHour(f, b, x)[if x == h then 1 else 0..];
      }
      StableOrderIsUnique(f, a[1..], b[1..]);
    }
  }

  lemma EmptyByHour(f: Format, a: seq<Record>, b: seq<Record>)
    requires AreRecords(f, a) && AreRecords(f, b) && (a == [] || b == [])
    requires forall h :: InHour(f, a, h) == InHour(f, b, h)
    ensures a == b
  {
    hide HourOf, RecvTs;
    HourOfHead(f, a);
    HourOfHead(f, b);
  }

  lemma HourOfHead(f: Format, a: seq<Record>)
    requires AreRecords(f, a)
    ensures a == [] || InHour(f, a, HourOf(RecvTs(f, a[0]))) != []
  {
  }

  lemma FirstHour(f: Format, a: seq<Record>, b: seq<Record>)
    requires AreRecords(f, a) && AreRecords(f, b) && a != [] && b != []
    requires HoursAscending(f, a) && forall h :: InHour(f, a, h) == InHour(f, b, h)
    ensures HourOf(RecvTs(f, a[0])) <= HourOf(RecvTs(f, b[0]))
  {
    hide HourOf, RecvTs;
    var h := HourOf(RecvTs(f, b[0]));
    InHourMembers(f, a, h);
    InHourMembers(f, b, h);
    assert b[0] in InHour(f, b, h);
    assert b[0] in InHour(f, a, h) && b[0] in a;
    var i :| 0 <= i < |a| && a[i] == b[0];
    assert i == 0 || HourOf(RecvTs(f, a[0])) <= HourOf(RecvTs(f, a[i]));
  }

  // ------------------------------------------------------- from files back to hours

  predicate Timely(f: Format, rs: seq<Record>)
    requires AreRecords(f, rs)
  {
    forall i :: 0 <= i < |rs| ==> RecvTs(f, rs[i]) > 0 && InRange(RecvTs(f, rs[i]))
  }

  ghost predicate InFile(f: Format, name: string, rs: seq<Record>)
    requires AreRecords(f, rs)
  {
    forall i :: 0 <= i < |rs| ==> HourlyFileName(f.prefix, RecvTs(f, rs[i])) == name
  }

  /** One file, one hour. */
  lemma {:induction false} HourOfFile(f: Format, name: string, rs: seq<Record>, ts: int)
    requires AreRecords(f, rs) && Timely(f, rs) && InFile(f, name, rs) && InRange(ts)
    ensures InHour(f, rs, HourOf(ts)) == if name == HourlyFileName(f.prefix, ts) then rs else []
  {
    hide HourOf, RecvTs, HourlyFileName, InRange, Less;
    if rs != [] {
      NamesOrderAsHours(f.prefix, RecvTs(f, rs[0]), ts);
      HourOfFile(f, name, rs[1..], ts);
      assert rs == [rs[0]] + rs[1..];
    }
  }

  /** What the listing delivers for one hour is what that hour's file holds. */
  lemma {:induction false} HourOfSlots(f: Format, disk: Disk, files: seq<string>, ts: int)
    requires InRange(ts) && Ascending(files)
    requires forall n :: n in files ==> Timely(f, FileSlots(f, disk, n)) && InFile(f, n, FileSlots(f, disk, n))
    ensures InHour(f, AllSlots(f, disk, files), HourOf(ts))
         == if HourlyFileName(f.prefix, ts) in files then FileSlots(f, disk, HourlyFileName(f.prefix, ts)) else []
  {
    hide HourOf, RecvTs, HourlyFileName, InRange, Less, FileSlots, Timely, InFile;
    if files != [] {
      var n, rest := files[0], files[1..];
      assert n in files;
      HourOfSlots(f, disk, rest, ts);
      HourOfFile(f, n, FileSlots(f, disk, n), ts);
      InHourConcat(f, FileSlots(f, disk, n), AllSlots(f, disk, rest), HourOf(ts));
      LessIsTotal(n, n);
      assert n !in rest;
    }
  }

  lemma {:induction false} SlotsHoursAscend(f: Format, disk: Disk, files: seq<string>)
    requires Ascending(files)
    requires forall n :: n in files ==> Timely(f, FileSlots(f, disk, n)) && InFile(f, n, FileSlots(f, disk, n))
    ensures HoursAscending(f, AllSlots(f, disk, files))
    ensures Timely(f, AllSlots(f, disk, files))
    ensures forall i :: 0 <= i < |AllSlots(f, disk, files)| ==>
              HourlyFileName(f.prefix, RecvTs(f, AllSlots(f, disk, files)[i])) in files
  {
    hide HourOf, RecvTs, HourlyFileName, InRange, Less, FileSlots;
    if files != [] {
      var n, rest := files[0], files[1..];
      assert n in files;
      SlotsHoursAscend(f, disk, rest);
      var a, b := FileSlots(f, disk, n), AllSlots(f, disk, rest);
      forall i, j | 0 <= i < j < |a + b| ensures HourOf(RecvTs(f, (a + b)[i])) <= HourOf(RecvTs(f, (a + b)[j])) {
        var x, y := RecvTs(f, (a + b)[i]), RecvTs(f, (a + b)[j]);
        NamesOrderAsHours(f.prefix, x, y);
      }
    }
  }

  // --------------------------------------------------------------- receive times

  predicate TimelyRun(f: Format, es: seq<Event>)
    requires ValidRun(f, es)
  {
    forall i :: 0 <= i < |es| && es[i].Write? ==> RecvTs(f, es[i].record) > 0
  }

  ghost predicate TimelyStore(f: Format, s: GoodStore) {
    forall n :: IsHourlyName(f.prefix, n) ==> Timely(f, Contents(f, s, n))
  }

  lemma StepIsTimely(f: Format, s: GoodStore, e: Event)
    requires Sound(f, s) && TimelyStore(f, s) && ValidEvent(f, e)
    requires e.Write? ==> RecvTs(f, e.record) > 0
    ensures TimelyStore(f, Apply(f, s, e).store)
  {
    hide Sound, Contents, WriteToFile, PersistHeaderCount, CloseCurrentFile, CrashKeeping, CrashInRepair, RepairUpTo,
         EraseFile, RecvTs, InRange, Stamp;
    match e
    case Write(r, now) =>
      WriteStep(f, s, r, now);
      StampIsAccepted(f, r);
    case Persist => PersistStep(f, s);
    case Close => PersistStep(f, s);
    case Crash(kept) => CrashStep(f, s, kept);
    case RepairCrash(name, readable) => RepairSteps(f, s, name, readable);
    case Repair(name, readable) => RepairSteps(f, s, name, readable);
    case Erase(name) => EraseStep(f, s, name);
  }

  lemma {:induction false} RunIsTimely(f: Format, s: GoodStore, es: seq<Event>)
    requires Sound(f, s) && TimelyStore(f, s) && ValidRun(f, es) && TimelyRun(f, es)
    ensures TimelyStore(f, Run(f, s, es))
  {
    hide Sound, TimelyStore, Apply, RecvTs;
    if es != [] {
      var n := |es| - 1;
      RunIsTimely(f, s, es[..n]);
      RunIsSound(f, s, es[..n]);
      StepIsTimely(f, Run(f, s, es[..n]), es[n]);
    }
  }

  ghost predicate NoFilesOf(f: Format, disk: Disk) {
    forall n :: n in disk ==> !IsHourlyName(f.prefix, n)
  }

  lemma FreshStart(f: Format, disk: Disk)
    requires NoFilesOf(f, disk)
    ensures Sound(f, Store(disk, NoFile)) && CountsExact(f, Store(disk, NoFile)) && TimelyStore(f, Store(disk, NoFile))
    ensures forall n :: IsHourlyName(f.prefix, n) ==> Contents(f, Store(disk, NoFile), n) == []
  {
    hide IsHourlyName, RecvTs, SlotsIn;
  }

  lemma RunTimesInRange(f: Format, disk: Disk, es: seq<Event>)
    requires NoFilesOf(f, disk) && ValidRun(f, es) && TimelyRun(f, es)
    requires Run(f, Store(disk, NoFile), es).file.NoFile?
    ensures TimesInRange(f, Run(f, Store(disk, NoFile), es).disk)
  {
    hide Run, Sound, IsHourlyName, RecvTs, SlotsIn, InRange;
    FreshStart(f, disk);
    RunIsTimely(f, Store(disk, NoFile), es);
    var t := Run(f, Store(disk, NoFile), es);
    forall n, r | n in t.disk && IsHourlyName(f.prefix, n) && r in FileSlots(f, t.disk, n)
      ensures RecvTs(f, r) > 0 && InRange(RecvTs(f, r))
    {
      assert Contents(f, t, n) == FileSlots(f, t.disk, n);
      var i :| 0 <= i < |FileSlots(f, t.disk, n)| && FileSlots(f, t.disk, n)[i] == r;
    }
  }

  /**
   Pruning is exact on every directory the writer can leave, crashes included, whose
   headers are whole: a windowed replay equals the full replay filtered by time.
   */
  lemma {:induction false} WindowedReplayIsFilteredReplay(f: Format, disk: Disk, es: seq<Event>, all: seq<string>, some: seq<string>, window: TimeWindow)
    requires NoFilesOf(f, disk) && ValidRun(f, es) && TimelyRun(f, es)
    requires Run(f, Store(disk, NoFile), es).file.NoFile?
    requires AllReadable(f, Run(f, Store(disk, NoFile), es).disk)
    requires PrunesSafely(window)
    requires IsListing(all, f.prefix, Run(f, Store(disk, NoFile), es).disk.Keys, NO_WINDOW)
    requires IsListing(some, f.prefix, Run(f, Store(disk, NoFile), es).disk.Keys, window)
    ensures var end := Run(f, Store(disk, NoFile), es).disk;
      && !ScanFiles(f, end, all, NO_WINDOW).failed && !ScanFiles(f, end, some, window).failed
      && ScanFiles(f, end, some, window).delivered == InWindow(f, ScanFiles(f, end, all, NO_WINDOW).delivered, window)
  {
    hide Run, Sound, ScanFiles, TimesInRange, AllReadable, IsListing, NoFilesOf;
    FreshStart(f, disk);
    RunIsSound(f, Store(disk, NoFile), es);
    RunTimesInRange(f, disk, es);
    PruningIsExact(f, Run(f, Store(disk, NoFile), es).disk, all, some, window);
  }

  /** Headers are whole exactly when no crash cut a file inside its header. */
  lemma ReadableExactlyWhen(f: Format, s: GoodStore, es: seq<Event>)
    requires Sound(f, s) && ValidRun(f, es) && Run(f, s, es).file.NoFile?
    ensures var end := Run(f, s, es).disk;
      AllReadable(f, end) <==> forall n :: n in end && IsHourlyName(f.prefix, n) ==> |end[n]| >= HEADER
  {
    hide Run, SlotsIn, IsHourlyName, FromLe;
    RunIsSound(f, s, es);
    var t := Run(f, s, es);
    forall n | n in t.disk && IsHourlyName(f.prefix, n) ensures Readable(f, t.disk, n) <==> |t.disk[n]| >= HEADER {
      assert SoundFile(f, n, t.disk[n]);
    }
  }

  /**
   A file cut inside its header stops every later full replay of the directory before
   the first record, whatever has been written to other hours since, until the file once
   reads as missing.
   */
  lemma TornHeaderBlocksReplay(f: Format, s: GoodStore, es: seq<Event>, name: string, files: seq<string>)
    requires TornHeader(s, name) && IsHourlyName(f.prefix, name) && ValidRun(f, es) && Erase(name) !in es
    requires IsListing(files, f.prefix, Run(f, s, es).disk.Keys, NO_WINDOW)
    ensures !CanOpen(f, Run(f, s, es).disk, files, NO_WINDOW)
  {
    hide Run, IsHourlyName, Less;
    TornHeaderStays(f, s, es, name);
    assert NameInWindow(f.prefix, name, NO_WINDOW);
    assert name in files;
  }

  // ------------------------------------------------------- nothing that was not written

  /** a is b with some elements left out. */
  predicate Subsequence(a: seq<Record>, b: seq<Record>) {
    if a == [] then true
    else if b == [] then false
    else
      || (a[|a| - 1] == b[|b| - 1] && Subsequence(a[..|a| - 1], b[..|b| - 1]))
      || Subsequence(a, b[..|b| - 1])
  }

  /** Where in b the elements of a stand, in the same order. */
  lemma {:induction false} Positions(a: seq<Record>, b: seq<Record>) returns (at: seq<nat>)
    requires Subsequence(a, b)
    ensures |at| == |a| && forall i :: 0 <= i < |a| ==> at[i] < |b| && a[i] == b[at[i]]
    ensures forall i, j :: 0 <= i < j < |a| ==> at[i] < at[j]
    decreases |b|
  {
    if a == [] {
      at := [];
    } else {
      var m, n := |a| - 1, |b| - 1;
      if a[m] == b[n] && Subsequence(a[..m], b[..n]) {
        at := Positions(a[..m], b[..n]);
        at := at + [n];
      } else {
        at := Positions(a, b[..n]);
      }
    }
  }

  lemma {:induction false} PrefixOfSubsequence(p: seq<Record>, a: seq<Record>, b: seq<Record>)
    requires p <= a && Subsequence(a, b)
    ensures Subsequence(p, b)
  {
    if p == a {
      assert p == a;
    } else if p != [] {
      if a[|a| - 1] == b[|b| - 1] && Subsequence(a[..|a| - 1], b[..|b| - 1]) {
        PrefixOfSubsequence(p, a[..|a| - 1], b[..|b| - 1]);
      } else {
        PrefixOfSubsequence(p, a, b[..|b| - 1]);
      }
    }
  }

  lemma LongerSubsequence(a: seq<Record>, b: seq<Record>, last: seq<Record>)
    requires Subsequence(a, b) && |last| <= 1
    ensures Subsequence(a + last, b + last) && Subsequence(a, b + last)
  {
    if last == [] {
      assert a + last == a && b + last == b;
    } else {
      assert (a + last)[..|a + last| - 1] == a && (b + last)[..|b + last| - 1] == b;
    }
  }

  /** What a step leaves in a file is part of what was there and what it wrote. */
  lemma StepInventsNothing(f: Format, s: GoodStore, e: Event, n: string, b: seq<Record>)
    requires Sound(f, s) && ValidEvent(f, e) && Subsequence(Contents(f, s, n), b)
    ensures Subsequence(Contents(f, Apply(f, s, e).store, n),
                        b + if e.Write? && FileFor(f, e.record, e.now) == n then [Stamp(f, e.record)] else [])
  {
    hide Sound, Contents, WriteToFile, PersistHeaderCount, CloseCurrentFile, CrashKeeping, CrashInRepair, RepairUpTo,
         EraseFile, FileFor, Stamp, Subsequence;
    var was := Contents(f, s, n);
    assert b + [] == b;
    match e
    case Write(r, now) =>
      WriteStep(f, s, r, now);
      assert was + [] == was;
      LongerSubsequence(was, b, if FileFor(f, r, now) == n then [Stamp(f, r)] else []);
    case Persist => PersistStep(f, s);
    case Close => PersistStep(f, s);
    case Crash(kept) =>
      CrashStep(f, s, kept);
      PrefixOfSubsequence(Contents(f, CrashKeeping(s, kept), n), was, b);
    case RepairCrash(name, readable) =>
      RepairSteps(f, s, name, readable);
      PrefixOfSubsequence(Contents(f, CrashInRepair(f, s, name, readable), n), was, b);
    case Repair(name, readable) =>
      RepairSteps(f, s, name, readable);
      PrefixOfSubsequence(Contents(f, RepairUpTo(f, s, name, readable), n), was, b);
    case Erase(name) =>
      EraseStep(f, s, name);
      PrefixOfSubsequence(Contents(f, EraseFile(s, name), n), was, b);
  }

  /**
   Whatever crashes, fails or is lost: a file never holds anything but records written to
   it, each as often as it was written and in the order of writing.
   */
  lemma {:induction false} NothingIsInvented(f: Format, disk: Disk, es: seq<Event>, n: string)
    requires NoFilesOf(f, disk) && ValidRun(f, es) && IsHourlyName(f.prefix, n)
    ensures Subsequence(Contents(f, Run(f, Store(disk, NoFile), es), n), WrittenTo(f, es, n))
  {
    hide Sound, Contents, Apply, FileFor, Stamp, Subsequence, IsHourlyName;
    FreshStart(f, disk);
    if es == [] {
      EmptySubsequence([]);
    } else {
      var k := |es| - 1;
      NothingIsInvented(f, disk, es[..k], n);
      RunIsSound(f, Store(disk, NoFile), es[..k]);
      StepInventsNothing(f, Run(f, Store(disk, NoFile), es[..k]), es[k], n, WrittenTo(f, es[..k], n));
    }
  }

  lemma EmptySubsequence(b: seq<Record>)
    ensures Subsequence([], b)
  {
  }

  // ------------------------------------------------------------ replay after crashes

  /**
   Crashes, failures and replay together.  Over any history with a count update in it and
   whole headers at the end, a full scan ends without error, hours in order.  Each hour's
   records are among those written for it, in the order of writing; and unless records
   have been lost since, they begin with all that the hour's file had received when the
   count was updated: without earlier crashes, all that was written for it.
   */
  lemma ReplayAfterCrashes(f: Format, disk: Disk, before: seq<Event>, after: seq<Event>, files: seq<string>)
    requires NoFilesOf(f, disk) && ValidRun(f, before + [Persist] + after) && TimelyRun(f, before + [Persist] + after)
    requires Run(f, Store(disk, NoFile), before + [Persist] + after).file.NoFile?
    requires AllReadable(f, Run(f, Store(disk, NoFile), before + [Persist] + after).disk)
    requires IsListing(files, f.prefix, Run(f, Store(disk, NoFile), before + [Persist] + after).disk.Keys, NO_WINDOW)
    ensures ValidRun(f, before) && ValidRun(f, before + [Persist]) && ValidRun(f, after)
    ensures var all := before + [Persist] + after;
      var scan := ScanFiles(f, Run(f, Store(disk, NoFile), all).disk, files, NO_WINDOW);
      var kept := NoLoss(f, Run(f, Store(disk, NoFile), before + [Persist]), after);
      && !scan.failed && HoursAscending(f, scan.delivered)
      && (forall ts :: InRange(ts) ==>
            Subsequence(InHour(f, scan.delivered, HourOf(ts)), WrittenTo(f, all, HourlyFileName(f.prefix, ts))))
      && (kept ==> forall ts :: InRange(ts) ==>
            Contents(f, Run(f, Store(disk, NoFile), before), HourlyFileName(f.prefix, ts))
            <= InHour(f, scan.delivered, HourOf(ts)))
      && (kept && CrashFree(before) ==> forall ts :: InRange(ts) ==>
            WrittenTo(f, before, HourlyFileName(f.prefix, ts)) <= InHour(f, scan.delivered, HourOf(ts)))
  {
    hide Run, RecvTs, SlotsIn, IsHourlyName, InRange, HourlyFileName, Less, HeaderOk, WrittenTo, ScanFiles, HourOf,
         Timely, InFile, FileSlots, AllSlots, Contents, CountsExact, NoLoss, Subsequence;
    var s, all := Store(disk, NoFile), before + [Persist] + after;
    var end := Run(f, s, all).disk;
    Prefixes(f, before, after);
    FreshStart(f, disk);
    RunIsSound(f, s, all);
    ListedAfterCrashes(f, disk, all, files);
    CompleteScan(f, end, files, NO_WINDOW);
    NoWindowKeepsAll(f, AllSlots(f, end, files));
    SlotsHoursAscend(f, end, files);
    forall ts | InRange(ts)
      ensures Subsequence(InHour(f, AllSlots(f, end, files), HourOf(ts)), WrittenTo(f, all, HourlyFileName(f.prefix, ts)))
    {
      HourIsContents(f, disk, all, files, ts);
      GeneratedNameIsRecognised(f.prefix, f.prefix, ts);
      NothingIsInvented(f, disk, all, HourlyFileName(f.prefix, ts));
    }
    if NoLoss(f, Run(f, s, before + [Persist]), after) {
      forall ts | InRange(ts)
        ensures Contents(f, Run(f, s, before), HourlyFileName(f.prefix, ts))
             <= InHour(f, AllSlots(f, end, files), HourOf(ts))
      {
        CountedInHour(f, disk, before, after, files, ts);
      }
      if CrashFree(before) {
        CleanRun(f, s, before);
        forall ts | InRange(ts)
          ensures WrittenTo(f, before, HourlyFileName(f.prefix, ts)) <= InHour(f, AllSlots(f, end, files), HourOf(ts))
        {
          GeneratedNameIsRecognised(f.prefix, f.prefix, ts);
          assert Contents(f, s, HourlyFileName(f.prefix, ts)) == [];
        }
      }
    }
  }

  /** What a full scan delivers for an hour is what that hour's file holds. */
  lemma HourIsContents(f: Format, disk: Disk, es: seq<Event>, files: seq<string>, ts: int)
    requires NoFilesOf(f, disk) && ValidRun(f, es) && TimelyRun(f, es) && InRange(ts)
    requires Run(f, Store(disk, NoFile), es).file.NoFile?
    requires IsListing(files, f.prefix, Run(f, Store(disk, NoFile), es).disk.Keys, NO_WINDOW)
    ensures InHour(f, AllSlots(f, Run(f, Store(disk, NoFile), es).disk, files), HourOf(ts))
         == Contents(f, Run(f, Store(disk, NoFile), es), HourlyFileName(f.prefix, ts))
  {
    hide Run, RecvTs, SlotsIn, IsHourlyName, InRange, HourlyFileName, Less, HourOf, Timely, InFile, AllSlots;
    var end, name := Run(f, Store(disk, NoFile), es).disk, HourlyFileName(f.prefix, ts);
    ListedAfterCrashes(f, disk, es, files);
    HourOfSlots(f, end, files, ts);
    GeneratedNameIsRecognised(f.prefix, f.prefix, ts);
    assert name in files <==> name in end;
  }

  lemma Prefixes(f: Format, before: seq<Event>, after: seq<Event>)
    requires ValidRun(f, before + [Persist] + after)
    ensures ValidRun(f, before) && ValidRun(f, before + [Persist]) && ValidRun(f, after)
  {
    hide ValidEvent;
    var all := before + [Persist] + after;
    forall i | 0 <= i < |before| ensures ValidEvent(f, before[i]) {
      assert before[i] == all[i];
    }
    assert all[|before|] == Persist;
    forall i | 0 <= i < |after| ensures ValidEvent(f, after[i]) {
      assert after[i] == all[|before| + 1 + i];
    }
  }

  lemma ListedAfterCrashes(f: Format, disk: Disk, es: seq<Event>, files: seq<string>)
    requires NoFilesOf(f, disk) && ValidRun(f, es) && TimelyRun(f, es)
    requires Run(f, Store(disk, NoFile), es).file.NoFile?
    requires IsListing(files, f.prefix, Run(f, Store(disk, NoFile), es).disk.Keys, NO_WINDOW)
    ensures var end := Run(f, Store(disk, NoFile), es).disk;
      forall n :: n in files ==>
        n in end && IsHourlyName(f.prefix, n) && Timely(f, FileSlots(f, end, n)) && InFile(f, n, FileSlots(f, end, n))
  {
    hide Run, RecvTs, SlotsIn, IsHourlyName, InRange, HourlyFileName, Less, RecordCrcOk, HeaderOk;
    FreshStart(f, disk);
    RunIsSound(f, Store(disk, NoFile), es);
    RunIsTimely(f, Store(disk, NoFile), es);
    var t := Run(f, Store(disk, NoFile), es);
    forall n | n in files
      ensures n in t.disk && IsHourlyName(f.prefix, n)
      ensures Timely(f, FileSlots(f, t.disk, n)) && InFile(f, n, FileSlots(f, t.disk, n))
    {
      assert Contents(f, t, n) == FileSlots(f, t.disk, n);
      SoundFileBelongs(f, n, t.disk[n]);
    }
  }

  lemma CountedInHour(f: Format, disk: Disk, before: seq<Event>, after: seq<Event>, files: seq<string>, ts: int)
    requires NoFilesOf(f, disk) && ValidRun(f, before) && ValidRun(f, before + [Persist]) && ValidRun(f, after)
    requires ValidRun(f, before + [Persist] + after) && TimelyRun(f, before + [Persist] + after) && InRange(ts)
    requires NoLoss(f, Run(f, Store(disk, NoFile), before + [Persist]), after)
    requires Run(f, Store(disk, NoFile), before + [Persist] + after).file.NoFile?
    requires IsListing(files, f.prefix, Run(f, Store(disk, NoFile), before + [Persist] + after).disk.Keys, NO_WINDOW)
    ensures Contents(f, Run(f, Store(disk, NoFile), before), HourlyFileName(f.prefix, ts))
         <= InHour(f, AllSlots(f, Run(f, Store(disk, NoFile), before + [Persist] + after).disk, files), HourOf(ts))
  {
    hide Run, RecvTs, SlotsIn, IsHourlyName, InRange, HourlyFileName, Less, HourOf, AllSlots, NoLoss, Sound, IsListing;
    var s, name := Store(disk, NoFile), HourlyFileName(f.prefix, ts);
    FreshStart(f, disk);
    PersistLast(f, s, before);
    RunConcat(f, s, before + [Persist], after);
    PersistedRecordsSurvive(f, s, before, after, name);
    HourIsContents(f, disk, before + [Persist] + after, files, ts);
  }

  lemma PersistLast(f: Format, s: GoodStore, es: seq<Event>)
    requires ValidRun(f, es) && ValidRun(f, es + [Persist])
    ensures Run(f, s, es + [Persist]) == PersistHeaderCount(Run(f, s, es))
  {
    assert (es + [Persist])[..|es|] == es;
  }

  /**
   Such losses happen: after the first record of an hour is written and the file closed,
   one slot that cannot be read, or one failed test for the file, loses it.
   */
  lemma CompleteRecordsCanBeLost(f: Format, disk: Disk, r: Record, now: int)
    requires NoFilesOf(f, disk) && IsRecord(f, r) && InRange(FilingTs(f, r, now))
    ensures var es := [Write(r, now), Close];
      var name := FileFor(f, r, now);
      && ValidRun(f, es) && IsHourlyName(f.prefix, name)
      && var s := Run(f, Store(disk, NoFile), es);
         && Durable(f, s, name) == [Stamp(f, r)]
         && Durable(f, RepairUpTo(f, s, name, 0), name) == []
         && Durable(f, EraseFile(s, name), name) == []
         && Loses(f, s, Repair(name, 0)) && Loses(f, s, Erase(name))
  {
    hide FilingTs, InRange, HourlyFileName, Stamp, IsHourlyName, WriteToFile, CloseCurrentFile, RepairUpTo, SlotsIn,
         EraseFile, Sound;
    var es, name := [Write(r, now), Close], FileFor(f, r, now);
    var start := Store(disk, NoFile);
    GeneratedNameIsRecognised(f.prefix, f.prefix, FilingTs(f, r, now));
    FreshStart(f, disk);
    assert es[..1] == [Write(r, now)] && es[..1][..0] == [];
    assert ValidEvent(f, es[0]) && ValidEvent(f, es[1]);
    CleanRun(f, start, es);
    RunIsSound(f, start, es);
    var s := Run(f, start, es);
    WrittenOnce(f, r, now);
    ClosedFile(Run(f, start, es[..1]));
    RepairSteps(f, s, name, 0);
    EraseStep(f, s, name);
  }

  lemma WrittenOnce(f: Format, r: Record, now: int)
    requires ValidRun(f, [Write(r, now), Close])
    ensures IsRecord(f, r) && WrittenTo(f, [Write(r, now), Close], FileFor(f, r, now)) == [Stamp(f, r)]
  {
    hide Stamp, FilingTs, InRange, HourlyFileName;
    var es := [Write(r, now), Close];
    assert ValidEvent(f, es[0]);
    assert es[..1] == [Write(r, now)] && es[..1][..0] == [];
    assert WrittenTo(f, es[..1], FileFor(f, r, now)) == [Stamp(f, r)];
  }

  // -------------------------------------------------------------------- round trip

  lemma HourOfOne(f: Format, r: Record, ts: int)
    requires IsRecord(f, r) && RecvTs(f, r) > 0 && InRange(RecvTs(f, r)) && InRange(ts)
    ensures InHour(f, [Stamp(f, r)], HourOf(ts))
         == if HourlyFileName(f.prefix, RecvTs(f, r)) == HourlyFileName(f.prefix, ts) then [Stamp(f, r)] else []
  {
    hide RecvTs, HourOf, HourlyFileName, InRange, Stamp, Less;
    StampIsAccepted(f, r);
    NamesOrderAsHours(f.prefix, RecvTs(f, r), ts);
  }

  lemma {:induction false} WrittenByHour(f: Format, es: seq<Event>, ts: int)
    requires ValidRun(f, es) && TimelyRun(f, es) && InRange(ts)
    ensures InHour(f, Written(f, es), HourOf(ts)) == WrittenTo(f, es, HourlyFileName(f.prefix, ts))
    ensures Timely(f, Written(f, es))
  {
    hide RecvTs, HourOf, HourlyFileName, InRange, Stamp, Less;
    if es != [] {
      var n := |es| - 1;
      WrittenByHour(f, es[..n], ts);
      var last := if es[n].Write? then [Stamp(f, es[n].record)] else [];
      if es[n].Write? {
        assert ValidEvent(f, es[n]);
        StampIsAccepted(f, es[n].record);
        HourOfOne(f, es[n].record, ts);
      }
      InHourConcat(f, Written(f, es[..n]), last, HourOf(ts));
    }
  }

  lemma {:induction false} InHourOutside(f: Format, rs: seq<Record>, hour: int)
    requires AreRecords(f, rs) && Timely(f, rs) && !InRange(hour * HOUR_US)
    ensures InHour(f, rs, hour) == []
  {
    hide RecvTs;
    if rs != [] {
      InHourOutside(f, rs[1..], hour);
      HourStart(RecvTs(f, rs[0]));
    }
  }

  lemma HourStart(ts: int)
    requires InRange(ts)
    ensures InRange(HourOf(ts) * HOUR_US)
    ensures HourOf(HourOf(ts) * HOUR_US) == HourOf(ts)
  {
  }

  lemma HourOfStart(hour: int)
    ensures HourOf(hour * HOUR_US) == hour
  {
  }

  lemma {:induction false} AllSlotsSnoc(f: Format, disk: Disk, files: seq<string>)
    requires files != []
    ensures AllSlots(f, disk, files)
         == AllSlots(f, disk, files[..|files| - 1]) + FileSlots(f, disk, files[|files| - 1])
  {
    var last := |files| - 1;
    if last > 0 {
      AllSlotsSnoc(f, disk, files[1..]);
      assert files[1..][..last - 1] == files[..last][1..];
    }
  }

  lemma {:induction false} ClaimsAddUp(f: Format, disk: Disk, files: seq<string>)
    requires forall n :: n in files ==>
               (n in disk && |disk[n]| >= HEADER && HeaderCount(disk[n]) == |FileSlots(f, disk, n)| % U64)
    ensures ClaimedCount(disk, files) % U64 == |AllSlots(f, disk, files)| % U64
  {
    hide HeaderCount, FileSlots;
    if files != [] {
      var last := |files| - 1;
      assert files[last] in files;
      ClaimsAddUp(f, disk, files[..last]);
      AllSlotsSnoc(f, disk, files);
      var a, b := ClaimedCount(disk, files[..last]), HeaderCount(disk[files[last]]);
      var c, d := |AllSlots(f, disk, files[..last])|, |FileSlots(f, disk, files[last])|;
      AddModulo(a, b);
      AddModulo(c, b);
      AddModulo(d, c);
    }
  }

  /** Files of the stream exist only where something was written. */
  lemma {:induction false} FilesComeFromWrites(f: Format, s: GoodStore, es: seq<Event>, name: string)
    requires ValidRun(f, es) && name in Run(f, s, es).disk && name !in s.disk
    requires s.file.NoFile?
    ensures exists i :: 0 <= i < |es| && es[i].Write?
  {
    hide FileFor, Repaired, HeaderOk, Stamp, WithCount;
    var n := |es| - 1;
    if !es[n].Write? {
      FilesComeFromWrites(f, s, es[..n], name);
    }
  }

  /** The names the listing can find hold what was filed under them. */
  lemma ListedFiles(f: Format, disk: Disk, es: seq<Event>, files: seq<string>)
    requires NoFilesOf(f, disk) && ValidRun(f, es) && CrashFree(es) && TimelyRun(f, es)
    requires Run(f, Store(disk, NoFile), es).file.NoFile?
    requires IsListing(files, f.prefix, Run(f, Store(disk, NoFile), es).disk.Keys, NO_WINDOW)
    ensures var end := Run(f, Store(disk, NoFile), es).disk;
      && (forall n :: n in files ==>
            (IsHourlyName(f.prefix, n) && n in end
             && |end[n]| >= HEADER && HeaderCount(end[n]) == |FileSlots(f, end, n)| % U64))
      && (forall n :: n in files ==> Timely(f, FileSlots(f, end, n)) && InFile(f, n, FileSlots(f, end, n)))
      && (forall n :: IsHourlyName(f.prefix, n) ==>
            (if n in files then FileSlots(f, end, n) else []) == WrittenTo(f, es, n))
  {
    hide Run, RecvTs, SlotsIn, IsHourlyName, HeaderCount, InRange, HourlyFileName, Less, RecordCrcOk, HeaderOk, WrittenTo;
    var s := Store(disk, NoFile);
    FreshStart(f, disk);
    RunIsSound(f, s, es);
    CleanRun(f, s, es);
    RunIsTimely(f, s, es);
    var t := Run(f, s, es);
    forall n | IsHourlyName(f.prefix, n)
      ensures FileSlots(f, t.disk, n) == WrittenTo(f, es, n)
      ensures Timely(f, FileSlots(f, t.disk, n)) && InFile(f, n, FileSlots(f, t.disk, n))
    {
      assert Contents(f, t, n) == FileSlots(f, t.disk, n);
      if n in t.disk {
        assert SoundFile(f, n, t.disk[n]);
      }
    }
  }

  /**
   Round trip.  Over any number of sessions without a crash, in any order of receive
   times, a full scan opens exactly when something was written, ends without error,
   agrees with the header counts, and delivers exactly the written records: hours in
   order, in writing order within an hour, changed only in crc32.
   */
  lemma {:induction false} RoundTrip(f: Format, disk: Disk, es: seq<Event>, files: seq<string>)
    requires NoFilesOf(f, disk) && ValidRun(f, es) && CrashFree(es) && TimelyRun(f, es)
    requires Run(f, Store(disk, NoFile), es).file.NoFile?
    requires IsListing(files, f.prefix, Run(f, Store(disk, NoFile), es).disk.Keys, NO_WINDOW)
    ensures var end := Run(f, Store(disk, NoFile), es).disk;
      && CanOpen(f, end, files, NO_WINDOW) == (Written(f, es) != [])
      && !ScanFiles(f, end, files, NO_WINDOW).failed
      && StableByHour(f, Written(f, es), ScanFiles(f, end, files, NO_WINDOW).delivered)
      && (forall n :: n in files ==> n in end && |end[n]| >= HEADER)
      && ClaimedCount(end, files) % U64 == |ScanFiles(f, end, files, NO_WINDOW).delivered| % U64
  {
    hide Run, RecvTs, SlotsIn, IsHourlyName, HeaderCount, InRange, HourlyFileName, Less, HeaderOk, WrittenTo, Written,
         ScanFiles, HourOf, Timely, InFile, FileSlots, AllSlots, ClaimedCount;
    var s := Store(disk, NoFile);
    var end := Run(f, s, es).disk;
    FreshStart(f, disk);
    RunIsSound(f, s, es);
    ListedFiles(f, disk, es, files);
    ReadableExactlyWhen(f, s, es);
    assert AllReadable(f, end) by {
      forall n | n in end && IsHourlyName(f.prefix, n) ensures |end[n]| >= HEADER {
        assert NameInWindow(f.prefix, n, NO_WINDOW);
        assert n in files;
      }
    }
    CompleteScan(f, end, files, NO_WINDOW);
    var out := AllSlots(f, end, files);
    NoWindowKeepsAll(f, out);
    ClaimsAddUp(f, end, files);
    SlotsHoursAscend(f, end, files);
    ScanIsStable(f, es, files, end);
    OpensWhenWritten(f, disk, es, files);
  }

  lemma ScanIsStable(f: Format, es: seq<Event>, files: seq<string>, end: Disk)
    requires ValidRun(f, es) && TimelyRun(f, es) && Ascending(files)
    requires forall n :: n in files ==> Timely(f, FileSlots(f, end, n)) && InFile(f, n, FileSlots(f, end, n))
    requires forall n :: IsHourlyName(f.prefix, n) ==>
               (if n in files then FileSlots(f, end, n) else []) == WrittenTo(f, es, n)
    ensures StableByHour(f, Written(f, es), AllSlots(f, end, files))
  {
    hide RecvTs, IsHourlyName, InRange, HourlyFileName, Less, WrittenTo, Written, HourOf, Timely, InFile, FileSlots, AllSlots;
    SlotsHoursAscend(f, end, files);
    WrittenByHour(f, es, 0) by { EpochInRange(); }
    forall h ensures InHour(f, AllSlots(f, end, files), h) == InHour(f, Written(f, es), h) {
      var ts := h * HOUR_US;
      if InRange(ts) {
        HourOfStart(h);
        HourOfSlots(f, end, files, ts);
        WrittenByHour(f, es, ts);
        GeneratedNameIsRecognised(f.prefix, f.prefix, ts);
      } else {
        InHourOutside(f, AllSlots(f, end, files), h);
        InHourOutside(f, Written(f, es), h);
      }
    }
  }

  lemma EpochInRange()
    ensures InRange(0)
  {
    LastInRange();
  }

  lemma {:induction false} WritesAreWritten(f: Format, es: seq<Event>)
    requires ValidRun(f, es)
    ensures Written(f, es) != [] <==> exists i :: 0 <= i < |es| && es[i].Write?
  {
    if es != [] {
      var n := |es| - 1;
      WritesAreWritten(f, es[..n]);
      if i :| 0 <= i < |es| && es[i].Write? && i < n {
        assert es[..n][i].Write?;
      }
    }
  }

  lemma OpensWhenWritten(f: Format, disk: Disk, es: seq<Event>, files: seq<string>)
    requires NoFilesOf(f, disk) && ValidRun(f, es) && CrashFree(es) && TimelyRun(f, es)
    requires Run(f, Store(disk, NoFile), es).file.NoFile?
    requires IsListing(files, f.prefix, Run(f, Store(disk, NoFile), es).disk.Keys, NO_WINDOW)
    requires StableByHour(f, Written(f, es), AllSlots(f, Run(f, Store(disk, NoFile), es).disk, files))
    ensures files != [] <==> Written(f, es) != []
  {
    hide Run, RecvTs, SlotsIn, InRange, HourlyFileName, Less, Written, HourOf, FileSlots, StableByHour;
    WritesAreWritten(f, es);
    if files != [] {
      assert files[0] in files;
      FilesComeFromWrites(f, Store(disk, NoFile), es, files[0]);
    } else {
      assert StableByHour(f, Written(f, es), []);
      NothingStable(f, Written(f, es));
    }
  }

  lemma NothingStable(f: Format, rs: seq<Record>)
    requires AreRecords(f, rs) && StableByHour(f, rs, [])
    ensures rs == []
  {
    hide RecvTs, HourOf;
    var h := if rs == [] then 0 else HourOf(RecvTs(f, rs[0]));
    assert InHour(f, rs, h) == InHour(f, [], h);
    HourOfHead(f, rs);
  }
}
