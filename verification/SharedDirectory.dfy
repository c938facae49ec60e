/**
 The trade writer and the order-book writer share one data directory.  Each stream's
 operations depend on its own hourly files only and leave the other's alone, so whatever
 holds of one writer holds beside the other.
 */
module SharedDirectory {
  import opened Crc32
  import opened RecordFormat
  import opened DataDirectory
  import opened RecordIntegrity
  import opened FileRoll
  import opened FileStore
  import opened RecordReader
  import opened ReplayTheory

  /** Two directories with the same files of a stream. */
  ghost predicate SameFiles(f: Format, a: Disk, b: Disk) {
    forall n :: IsHourlyName(f.prefix, n) ==> (n in a <==> n in b) && (n in a ==> a[n] == b[n])
  }

  ghost predicate SameStream(f: Format, s: Store, t: Store) {
    s.file == t.file && SameFiles(f, s.disk, t.disk)
  }

  /** Two directories that differ at most in the files of a stream. */
  ghost predicate SameOthers(f: Format, a: Disk, b: Disk) {
    forall n :: !IsHourlyName(f.prefix, n) ==> (n in a <==> n in b) && (n in a ==> a[n] == b[n])
  }

  ghost predicate OwnFile(f: Format, s: Store) {
    s.file.Open? ==> IsHourlyName(f.prefix, s.file.name)
  }

  /** A name belongs to one stream only. */
  lemma NamesAreApart(f: Format, g: Format, n: string)
    requires f.prefix != g.prefix && IsHourlyName(f.prefix, n)
    ensures !IsHourlyName(g.prefix, n)
  {
    if IsHourlyName(g.prefix, n) {
      OnePrefix(f.prefix, g.prefix, n);
    }
  }

  lemma OnePrefix(p: string, q: string, n: string)
    requires IsHourlyName(p, n) && IsHourlyName(q, n)
    ensures p == q
  {
    assert (p + "_")[..|p|] == p && (q + "_")[..|q|] == q;
  }

  /** The streams of the program are two. */
  lemma StreamsAreApart()
    ensures TRADE.prefix != ORDER_BOOK.prefix
  {
    assert |TRADE.prefix| != |ORDER_BOOK.prefix|;
  }

  // ------------------------------------------------------------------ one operation

  lemma ClosePart(f: Format, s: GoodStore, t: GoodStore)
    requires SameStream(f, s, t)
    ensures SameStream(f, PersistHeaderCount(s), PersistHeaderCount(t))
    ensures SameStream(f, CloseCurrentFile(s), CloseCurrentFile(t))
  {
    hide IsHourlyName, WithCount;
  }

  lemma OpenPart(f: Format, s: GoodStore, t: GoodStore, name: string)
    requires SameStream(f, s, t) && IsHourlyName(f.prefix, name)
    ensures OpenHourFile(f, s, name).ok == OpenHourFile(f, t, name).ok
    ensures SameStream(f, OpenHourFile(f, s, name).store, OpenHourFile(f, t, name).store)
  {
    hide IsHourlyName, HeaderOk, Repaired, GoodCount, Header;
  }

  lemma WritePart(f: Format, s: GoodStore, t: GoodStore, r: Record, now: int)
    requires SameStream(f, s, t) && ValidEvent(f, Write(r, now))
    ensures WriteToFile(f, s, r, now).ok == WriteToFile(f, t, r, now).ok
    ensures SameStream(f, WriteToFile(f, s, r, now).store, WriteToFile(f, t, r, now).store)
  {
    hide IsHourlyName, OpenHourFile, CloseCurrentFile, Stamp, HourlyFileName, FilingTs;
    GeneratedNameIsRecognised(f.prefix, f.prefix, FilingTs(f, r, now));
    ClosePart(f, s, t);
    OpenPart(f, CloseCurrentFile(s), CloseCurrentFile(t), FileFor(f, r, now));
  }

  lemma LossyPart(f: Format, s: GoodStore, t: GoodStore, kept: nat, name: string, readable: nat)
    requires SameStream(f, s, t)
    ensures SameStream(f, CrashKeeping(s, kept), CrashKeeping(t, kept))
    ensures IsHourlyName(f.prefix, name) ==>
              SameStream(f, CrashInRepair(f, s, name, readable), CrashInRepair(f, t, name, readable))
              && SameStream(f, RepairUpTo(f, s, name, readable), RepairUpTo(f, t, name, readable))
              && SameStream(f, EraseFile(s, name), EraseFile(t, name))
              && Durable(f, s, name) == Durable(f, t, name)
  {
    hide IsHourlyName, HeaderOk, Repaired, CutBack, Legible, SlotsIn;
  }

  /** What an event does to a stream depends on the stream's own files only. */
  lemma ApplyIsLocal(f: Format, s: GoodStore, t: GoodStore, e: Event)
    requires SameStream(f, s, t) && ValidEvent(f, e)
    ensures Apply(f, s, e).ok == Apply(f, t, e).ok
    ensures SameStream(f, Apply(f, s, e).store, Apply(f, t, e).store)
    ensures Loses(f, s, e) == Loses(f, t, e)
  {
    hide SameStream, WriteToFile, PersistHeaderCount, CloseCurrentFile, CrashKeeping, CrashInRepair, RepairUpTo,
         EraseFile, Durable, IsHourlyName;
    SameFileState(f, s, t);
    match e
    case Write(r, now) => WritePart(f, s, t, r, now);
    case Persist => ClosePart(f, s, t);
    case Close => ClosePart(f, s, t);
    case Crash(kept) => LossyPart(f, s, t, kept, "", 0);
    case RepairCrash(name, readable) => LossyPart(f, s, t, 0, name, readable);
    case Repair(name, readable) => LossyPart(f, s, t, 0, name, readable);
    case Erase(name) => LossyPart(f, s, t, 0, name, 0);
  }

  lemma SameFileState(f: Format, s: Store, t: Store)
    requires SameStream(f, s, t)
    ensures s.file == t.file
  {
  }

  /** So does any history. */
  lemma {:induction false} RunIsLocal(f: Format, s: GoodStore, t: GoodStore, es: seq<Event>)
    requires SameStream(f, s, t) && ValidRun(f, es)
    ensures SameStream(f, Run(f, s, es), Run(f, t, es))
    ensures NoLoss(f, s, es) == NoLoss(f, t, es)
  {
    hide SameStream, Apply, Loses, ValidEvent;
    if es != [] {
      var n := |es| - 1;
      RunIsLocal(f, s, t, es[..n]);
      ApplyIsLocal(f, Run(f, s, es[..n]), Run(f, t, es[..n]), es[n]);
      LossSplit(f, s, es);
      LossSplit(f, t, es);
    }
  }

  lemma LossSplit(f: Format, s: GoodStore, es: seq<Event>)
    requires ValidRun(f, es) && es != []
    ensures NoLoss(f, s, es) <==>
            NoLoss(f, s, es[..|es| - 1]) && !Loses(f, Run(f, s, es[..|es| - 1]), es[|es| - 1])
  {
    hide Loses, ValidEvent, Run;
    var n := |es| - 1;
    if NoLoss(f, s, es) {
      NoLossBefore(f, s, es);
    } else if NoLoss(f, s, es[..n]) && !Loses(f, Run(f, s, es[..n]), es[n]) {
      forall i | 0 <= i < |es| ensures !Loses(f, Run(f, s, es[..i]), es[i]) {
        if i < n {
          assert es[..n][..i] == es[..i] && es[..n][i] == es[i];
        }
      }
    }
  }

  lemma CloseKeepsOthers(f: Format, s: GoodStore)
    requires OwnFile(f, s)
    ensures OwnFile(f, PersistHeaderCount(s)) && OwnFile(f, CloseCurrentFile(s))
    ensures SameOthers(f, s.disk, PersistHeaderCount(s).disk) && SameOthers(f, s.disk, CloseCurrentFile(s).disk)
  {
    hide IsHourlyName, WithCount;
  }

  lemma OpenKeepsOthers(f: Format, s: GoodStore, name: string)
    requires IsHourlyName(f.prefix, name)
    ensures OwnFile(f, OpenHourFile(f, s, name).store) && SameOthers(f, s.disk, OpenHourFile(f, s, name).store.disk)
  {
    hide IsHourlyName, HeaderOk, Repaired, GoodCount, Header;
  }

  lemma WriteKeepsOthers(f: Format, s: GoodStore, r: Record, now: int)
    requires OwnFile(f, s) && ValidEvent(f, Write(r, now))
    ensures OwnFile(f, WriteToFile(f, s, r, now).store) && SameOthers(f, s.disk, WriteToFile(f, s, r, now).store.disk)
  {
    hide IsHourlyName, OpenHourFile, CloseCurrentFile, Stamp, HourlyFileName, FilingTs;
    GeneratedNameIsRecognised(f.prefix, f.prefix, FilingTs(f, r, now));
    CloseKeepsOthers(f, s);
    OpenKeepsOthers(f, CloseCurrentFile(s), FileFor(f, r, now));
  }

  /** An event of a stream leaves every other file of the directory alone. */
  lemma ApplyKeepsOthers(f: Format, s: GoodStore, e: Event)
    requires OwnFile(f, s) && ValidEvent(f, e)
    ensures OwnFile(f, Apply(f, s, e).store) && SameOthers(f, s.disk, Apply(f, s, e).store.disk)
  {
    hide WriteToFile, PersistHeaderCount, CloseCurrentFile, IsHourlyName, HeaderOk, Repaired, CutBack, Legible;
    match e
    case Write(r, now) => WriteKeepsOthers(f, s, r, now);
    case Persist => CloseKeepsOthers(f, s);
    case Close => CloseKeepsOthers(f, s);
    case _ =>
  }

  lemma {:induction false} RunKeepsOthers(f: Format, s: GoodStore, es: seq<Event>)
    requires OwnFile(f, s) && ValidRun(f, es)
    ensures OwnFile(f, Run(f, s, es)) && SameOthers(f, s.disk, Run(f, s, es).disk)
  {
    hide Apply, ValidEvent, IsHourlyName;
    if es != [] {
      var n := |es| - 1;
      RunKeepsOthers(f, s, es[..n]);
      ApplyKeepsOthers(f, Run(f, s, es[..n]), es[n]);
    }
  }

  // ------------------------------------------------------------------ two writers

  /** The directory and the file each of two writers has open. */
  datatype Joint = Joint(disk: Disk, left: OpenFile, right: OpenFile)

  datatype JointEvent = Left(e: Event) | Right(e: Event)

  ghost predicate JointGood(f: Format, g: Format, j: Joint) {
    && Store(j.disk, j.left).WellFormed() && OwnFile(f, Store(j.disk, j.left))
    && Store(j.disk, j.right).WellFormed() && OwnFile(g, Store(j.disk, j.right))
  }

  ghost predicate JointValid(f: Format, g: Format, es: seq<JointEvent>) {
    forall i :: 0 <= i < |es| ==> match es[i] case Left(e) => ValidEvent(f, e) case Right(e) => ValidEvent(g, e)
  }

  lemma OtherStaysGood(f: Format, g: Format, s: GoodStore, e: Event, other: OpenFile)
    requires f.prefix != g.prefix && OwnFile(f, s) && ValidEvent(f, e)
    requires Store(s.disk, other).WellFormed() && OwnFile(g, Store(s.disk, other))
    ensures Store(Apply(f, s, e).store.disk, other).WellFormed()
    ensures SameStream(g, Store(s.disk, other), Store(Apply(f, s, e).store.disk, other))
  {
    hide Apply, IsHourlyName;
    ApplyKeepsOthers(f, s, e);
    forall n | IsHourlyName(g.prefix, n) ensures !IsHourlyName(f.prefix, n) {
      NamesAreApart(g, f, n);
    }
  }

  ghost function JointApply(f: Format, g: Format, j: Joint, e: JointEvent): (k: Joint)
    requires f.prefix != g.prefix && JointGood(f, g, j)
    requires match e case Left(e) => ValidEvent(f, e) case Right(e) => ValidEvent(g, e)
    ensures JointGood(f, g, k)
  {
    hide Apply, ValidEvent, IsHourlyName;
    match e
    case Left(e) =>
      var s: GoodStore := Store(j.disk, j.left);
      OtherStaysGood(f, g, s, e, j.right); ApplyKeepsOthers(f, s, e);
      var t := Apply(f, s, e).store;
      Joint(t.disk, t.file, j.right)
    case Right(e) =>
      var s: GoodStore := Store(j.disk, j.right);
      OtherStaysGood(g, f, s, e, j.left); ApplyKeepsOthers(g, s, e);
      var t := Apply(g, s, e).store;
      Joint(t.disk, j.left, t.file)
  }

  ghost function JointRun(f: Format, g: Format, j: Joint, es: seq<JointEvent>): (k: Joint)
    requires f.prefix != g.prefix && JointGood(f, g, j) && JointValid(f, g, es)
    ensures JointGood(f, g, k)
  {
    if es == [] then j else JointApply(f, g, JointRun(f, g, j, es[..|es| - 1]), es[|es| - 1])
  }

  function Lefts(es: seq<JointEvent>): seq<Event> {
    if es == [] then [] else
      var n := |es| - 1;
      Lefts(es[..n]) + if es[n].Left? then [es[n].e] else []
  }

  function Rights(es: seq<JointEvent>): seq<Event> {
    if es == [] then [] else
      var n := |es| - 1;
      Rights(es[..n]) + if es[n].Right? then [es[n].e] else []
  }

  lemma RunOneMore(f: Format, s: GoodStore, es: seq<Event>, e: Event)
    requires ValidRun(f, es) && ValidEvent(f, e)
    ensures ValidRun(f, es + [e]) && Run(f, s, es + [e]) == Apply(f, Run(f, s, es), e).store
  {
    hide Apply, ValidEvent;
    assert (es + [e])[..|es|] == es;
  }

  /**
   Any interleaving of the two writers gives each stream the files, and each writer the
   open file, that it would have had alone.
   */
  lemma {:induction false} WritersDoNotInterfere(f: Format, g: Format, j: Joint, es: seq<JointEvent>)
    requires f.prefix != g.prefix && JointGood(f, g, j) && JointValid(f, g, es)
    ensures ValidRun(f, Lefts(es)) && ValidRun(g, Rights(es))
    ensures var k := JointRun(f, g, j, es);
      && SameStream(f, Store(k.disk, k.left), Run(f, Store(j.disk, j.left), Lefts(es)))
      && SameStream(g, Store(k.disk, k.right), Run(g, Store(j.disk, j.right), Rights(es)))
  {
    hide Apply, ValidEvent, IsHourlyName, SameStream, OwnFile, Run, ValidRun;
    var s: GoodStore, t: GoodStore := Store(j.disk, j.left), Store(j.disk, j.right);
    if es == [] {
      NothingRun(f, s);
      NothingRun(g, t);
    } else {
      var n := |es| - 1;
      WritersDoNotInterfere(f, g, j, es[..n]);
      var m := JointRun(f, g, j, es[..n]);
      var a, b := Run(f, s, Lefts(es[..n])), Run(g, t, Rights(es[..n]));
      var e := es[n].e;
      if es[n].Left? {
        OneMoves(f, g, Store(m.disk, m.left), m.right, a, b, e);
        RunOneMore(f, s, Lefts(es[..n]), e);
        assert Rights(es) == Rights(es[..n]);
      } else {
        OneMoves(g, f, Store(m.disk, m.right), m.left, b, a, e);
        RunOneMore(g, t, Rights(es[..n]), e);
        assert Lefts(es) == Lefts(es[..n]);
      }
    }
  }

  lemma NothingRun(f: Format, s: GoodStore)
    ensures ValidRun(f, []) && SameStream(f, s, Run(f, s, []))
  {
  }

  lemma OneMoves(f: Format, g: Format, s: GoodStore, other: OpenFile, a: GoodStore, b: GoodStore, e: Event)
    requires f.prefix != g.prefix && ValidEvent(f, e) && OwnFile(f, s)
    requires Store(s.disk, other).WellFormed() && OwnFile(g, Store(s.disk, other))
    requires SameStream(f, s, a) && SameStream(g, Store(s.disk, other), b)
    ensures SameStream(f, Apply(f, s, e).store, Apply(f, a, e).store)
    ensures SameStream(g, Store(Apply(f, s, e).store.disk, other), b)
  {
    hide Apply, ValidEvent, IsHourlyName;
    ApplyIsLocal(f, s, a, e);
    OtherStaysGood(f, g, s, e, other);
  }

  // ------------------------------------------------------------------ reading

  lemma ListingIsLocal(f: Format, a: Disk, b: Disk, files: seq<string>, window: TimeWindow)
    requires SameFiles(f, a, b)
    ensures IsListing(files, f.prefix, a.Keys, window) == IsListing(files, f.prefix, b.Keys, window)
  {
    hide IsHourlyName, HourlyFileName;
    forall n ensures n in a.Keys && NameInWindow(f.prefix, n, window) <==> n in b.Keys && NameInWindow(f.prefix, n, window) {
    }
  }

  lemma {:induction false} RestIsLocal(f: Format, a: Disk, b: Disk, files: seq<string>, i: nat, rest: seq<byte>,
                                       window: TimeWindow)
    requires i < |files| && forall n :: n in files ==> Readable(f, a, n) == Readable(f, b, n)
    requires forall n :: n in files && n in a && n in b ==> a[n] == b[n]
    ensures ScanRest(f, a, files, i, rest, window) == ScanRest(f, b, files, i, rest, window)
    decreases |files| - i, |rest|
  {
    hide RecordCrcOk, RecvTs, HeaderOk;
    if |rest| >= f.size {
      RestIsLocal(f, a, b, files, i, rest[f.size..], window);
    } else if i + 1 < |files| && Readable(f, a, files[i + 1]) {
      assert files[i + 1] in files;
      HasHeader(f, a[files[i + 1]]);
      RestIsLocal(f, a, b, files, i + 1, Body(a[files[i + 1]]), window);
    }
  }

  /** What a replay of a stream sees depends on the stream's own files only. */
  lemma ScanIsLocal(f: Format, a: Disk, b: Disk, files: seq<string>, window: TimeWindow)
    requires SameFiles(f, a, b) && forall n :: n in files ==> IsHourlyName(f.prefix, n)
    ensures CanOpen(f, a, files, window) == CanOpen(f, b, files, window)
    ensures ScanFiles(f, a, files, window) == ScanFiles(f, b, files, window)
    ensures AllReadable(f, a) == AllReadable(f, b)
  {
    hide IsHourlyName, HeaderOk, ScanRest;
    if files != [] {
      assert files[0] in files;
      if Readable(f, a, files[0]) {
        HasHeader(f, a[files[0]]);
        RestIsLocal(f, a, b, files, 0, Body(a[files[0]]), window);
      }
    }
  }

  lemma {:induction false} ClaimsAreLocal(f: Format, a: Disk, b: Disk, files: seq<string>)
    requires SameFiles(f, a, b) && forall n :: n in files ==> IsHourlyName(f.prefix, n)
    requires forall n :: n in files ==> n in a && |a[n]| >= HEADER
    ensures forall n :: n in files ==> n in b && |b[n]| >= HEADER
    ensures ClaimedCount(a, files) == ClaimedCount(b, files)
  {
    hide IsHourlyName, HeaderCount;
    if files != [] {
      var last := |files| - 1;
      assert files[last] in files;
      ClaimsAreLocal(f, a, b, files[..last]);
    }
  }
}
