/**
 The files the writer thread keeps, as values: what src/storage/binary_record_writer.h
 does to the data directory, including what a process crash may leave behind.

 An open file is what the directory already holds plus bytes still in the stream's
 buffer.  A crash keeps any prefix of those bytes, so a file created a moment ago may
 be left with less than its header.
 */
module FileStore {
  import opened Crc32
  import opened ByteCodec
  import opened RecordFormat
  import opened DataDirectory
  import opened RecordIntegrity
  import opened Calendar
  import opened FileRoll

  datatype OpenFile = NoFile | Open(name: string, pending: seq<byte>, count: nat)

  datatype Store = Store(disk: Disk, file: OpenFile) {
    /** The open file exists, and its header is in the directory or in the buffer. */
    ghost predicate WellFormed() {
      file.Open? ==> file.name in disk && |disk[file.name]| + |file.pending| >= HEADER
    }
  }

  type GoodStore = s: Store | s.WellFormed() witness Store(map[], NoFile)

  datatype Outcome = Outcome(store: GoodStore, ok: bool)

  // --------------------------------------------------------------- the operations

  /** persist_header_count: seeking flushes the body first, then the count is rewritten. */
  function PersistHeaderCount(s: GoodStore): GoodStore {
    match s.file
    case NoFile => s
    case Open(name, pending, count) =>
      Store(s.disk[name := WithCount(s.disk[name] + pending, count)], Open(name, [], count))
  }

  function CloseCurrentFile(s: GoodStore): GoodStore {
    Store(PersistHeaderCount(s).disk, NoFile)
  }

  function OpenHourFile(f: Format, s: GoodStore, name: string): Outcome {
    if name in s.disk then
      if HeaderOk(f, s.disk[name]) then
        var repaired := Repaired(f, s.disk[name]);
        Outcome(Store(s.disk[name := repaired], Open(name, [], GoodCount(f, Body(s.disk[name])))), true)
      else
        Outcome(Store(s.disk, NoFile), false)
    else
      Outcome(Store(s.disk[name := []], Open(name, Header(f, 0), 0)), true)
  }

  /** The hour a record is filed under: its receive time, or the clock when it has none. */
  function FilingTs(f: Format, r: Record, now: int): int
    requires IsRecord(f, r)
  {
    if RecvTs(f, r) > 0 then RecvTs(f, r) else now
  }

  function FileFor(f: Format, r: Record, now: int): string
    requires IsRecord(f, r)
  {
    HourlyFileName(f.prefix, FilingTs(f, r, now))
  }

  function SelectFile(f: Format, s: GoodStore, name: string): Outcome {
    if s.file.Open? && s.file.name == name then Outcome(s, true)
    else OpenHourFile(f, CloseCurrentFile(s), name)
  }

  function Append(f: Format, s: GoodStore, r: Record): GoodStore
    requires IsRecord(f, r)
  {
    match s.file
    case NoFile => s
    case Open(name, pending, count) => s.(file := Open(name, pending + Stamp(f, r), count + 1))
  }

  function WriteToFile(f: Format, s: GoodStore, r: Record, now: int): Outcome
    requires IsRecord(f, r)
  {
    var selected := SelectFile(f, s, FileFor(f, r, now));
    if selected.ok then Outcome(Append(f, selected.store, r), true) else selected
  }

  /** The process dies; the directory keeps some prefix of the buffered bytes. */
  function CrashKeeping(s: GoodStore, kept: nat): GoodStore {
    match s.file
    case NoFile => s
    case Open(name, pending, _) =>
      var k := if kept < |pending| then kept else |pending|;
      Store(s.disk[name := s.disk[name] + pending[..k]], NoFile)
  }

  /**
   Reopening stops halfway: the file is cut, the count not yet rewritten.  The slots
   before the one numbered readable could be read.
   */
  function CrashInRepair(f: Format, s: GoodStore, name: string, readable: nat): GoodStore {
    if s.file.NoFile? && Readable(f, s.disk, name)
    then Store(s.disk[name := CutBack(f, Legible(f, s.disk[name], readable))], NoFile)
    else s
  }

  /** Repair runs to its end, taking a slot that cannot be read for the end of the good ones. */
  function RepairUpTo(f: Format, s: GoodStore, name: string, readable: nat): GoodStore {
    if s.file.NoFile? && Readable(f, s.disk, name)
    then Store(s.disk[name := Repaired(f, Legible(f, s.disk[name], readable))], NoFile)
    else s
  }

  /** The test whether the file exists fails, which reads as "no": it will be created anew. */
  function EraseFile(s: GoodStore, name: string): GoodStore {
    if s.file.NoFile? then Store(s.disk - {name}, NoFile) else s
  }

  predicate Readable(f: Format, disk: Disk, name: string) {
    name in disk && HeaderOk(f, disk[name])
  }

  datatype Event =
    | Write(record: Record, now: int) | Persist | Close | Crash(kept: nat)
    | RepairCrash(name: string, readable: nat) | Repair(name: string, readable: nat) | Erase(name: string)

  predicate ValidEvent(f: Format, e: Event) {
    && (e.Write? ==> IsRecord(f, e.record) && InRange(FilingTs(f, e.record, e.now)))
    && (e.RepairCrash? || e.Repair? || e.Erase? ==> IsHourlyName(f.prefix, e.name))
  }

  predicate ValidRun(f: Format, es: seq<Event>) {
    forall i :: 0 <= i < |es| ==> ValidEvent(f, es[i])
  }

  function Apply(f: Format, s: GoodStore, e: Event): Outcome
    requires ValidEvent(f, e)
  {
    match e
    case Write(r, now) => WriteToFile(f, s, r, now)
    case Persist => Outcome(PersistHeaderCount(s), true)
    case Close => Outcome(CloseCurrentFile(s), true)
    case Crash(kept) => Outcome(CrashKeeping(s, kept), true)
    case RepairCrash(name, readable) => Outcome(CrashInRepair(f, s, name, readable), true)
    case Repair(name, readable) => Outcome(RepairUpTo(f, s, name, readable), true)
    case Erase(name) => Outcome(EraseFile(s, name), true)
  }

  /** Any history of the directory: writes that failed change nothing further. */
  function Run(f: Format, s: GoodStore, es: seq<Event>): GoodStore
    requires ValidRun(f, es)
  {
    if es == [] then s else
      var n := |es| - 1;
      Apply(f, Run(f, s, es[..n]), es[n]).store
  }

  // ------------------------------------------------------------- what files contain

  /** The complete records in the bytes a file has in the directory. */
  function SlotsIn(f: Format, b: seq<byte>): (rs: seq<Record>)
    ensures AreRecords(f, rs)
  {
    if |b| < HEADER then [] else Slots(f, Body(b))
  }

  function FileSlots(f: Format, disk: Disk, name: string): (rs: seq<Record>)
    ensures AreRecords(f, rs)
  {
    if name in disk then SlotsIn(f, disk[name]) else []
  }

  function Durable(f: Format, s: GoodStore, name: string): (rs: seq<Record>)
    ensures AreRecords(f, rs)
  {
    FileSlots(f, s.disk, name)
  }

  /** The records in a file once its buffered bytes are counted in. */
  function Contents(f: Format, s: GoodStore, name: string): (rs: seq<Record>)
    ensures AreRecords(f, rs)
  {
    if s.file.Open? && s.file.name == name then SlotsIn(f, s.disk[name] + s.file.pending)
    else Durable(f, s, name)
  }

  /** Checked, and filed under the hour of their own receive time. */
  ghost predicate Belong(f: Format, name: string, rs: seq<Record>)
    requires AreRecords(f, rs)
  {
    forall i :: 0 <= i < |rs| ==>
      RecordCrcOk(f, rs[i]) && (RecvTs(f, rs[i]) > 0 ==> HourlyFileName(f.prefix, RecvTs(f, rs[i])) == name)
  }

  /** A file nobody has open: cut off inside its header, or with sound records only. */
  ghost predicate SoundFile(f: Format, name: string, b: seq<byte>) {
    |b| >= HEADER ==> HeaderOk(f, b) && Belong(f, name, SlotsIn(f, b))
  }

  ghost predicate SoundOpenFile(f: Format, name: string, b: seq<byte>, pending: seq<byte>, count: nat) {
    var full := b + pending;
    && HeaderOk(f, full)
    && Tail(f, Body(full)) == []
    && Belong(f, name, SlotsIn(f, full))
    && count == |SlotsIn(f, full)|
  }

  /** What every reachable state of the directory keeps. */
  ghost predicate Sound(f: Format, s: GoodStore) {
    && (s.file.Open? ==>
          IsHourlyName(f.prefix, s.file.name)
          && SoundOpenFile(f, s.file.name, s.disk[s.file.name], s.file.pending, s.file.count))
    && (forall n :: n in s.disk && IsHourlyName(f.prefix, n) && !(s.file.Open? && s.file.name == n) ==>
          SoundFile(f, n, s.disk[n]))
  }

  /** No header in the directory claims more records than its file has there. */
  ghost predicate HonestFile(f: Format, b: seq<byte>) {
    |b| >= HEADER ==> HeaderCount(b) <= |SlotsIn(f, b)|
  }

  ghost predicate Honest(f: Format, s: GoodStore) {
    && (s.file.Open? ==> HeaderCount(s.disk[s.file.name] + s.file.pending) <= |SlotsIn(f, s.disk[s.file.name])|)
    && (forall n :: n in s.disk && IsHourlyName(f.prefix, n) && !(s.file.Open? && s.file.name == n) ==>
          HonestFile(f, s.disk[n]))
  }

  // --------------------------------------------------------------- one file at a time

  /** Buffered bytes only ever extend what the directory holds. */
  lemma FlushExtends(f: Format, b: seq<byte>, p: seq<byte>)
    ensures SlotsIn(f, b) <= SlotsIn(f, b + p)
  {
    if |b| >= HEADER {
      assert Body(b + p) == Body(b) + p;
      SlotsOfConcat(f, Body(b), p);
    }
  }

  lemma PersistedFile(f: Format, name: string, b: seq<byte>, p: seq<byte>, count: nat)
    requires SoundOpenFile(f, name, b, p, count)
    ensures SoundFile(f, name, WithCount(b + p, count))
    ensures SoundOpenFile(f, name, WithCount(b + p, count), [], count)
    ensures SlotsIn(f, WithCount(b + p, count)) == SlotsIn(f, b + p)
    ensures HeaderCount(WithCount(b + p, count)) <= count
  {
    hide FromLe, Slots, Tail, Belong;
    var c := WithCount(b + p, count);
    WithCountKeeps(f, b + p, count);
    ModAtMost(count);
    assert c + [] == c;
  }

  lemma CrashedFile(f: Format, name: string, b: seq<byte>, p: seq<byte>, count: nat, k: nat)
    requires SoundOpenFile(f, name, b, p, count) && k <= |p|
    ensures SoundFile(f, name, b + p[..k])
    ensures SlotsIn(f, b) <= SlotsIn(f, b + p[..k]) <= SlotsIn(f, b + p)
    ensures HeaderCount(b + p) <= |SlotsIn(f, b)| ==> HonestFile(f, b + p[..k])
  {
    hide FromLe, Slots, Tail, RecordCrcOk;
    var cut, full := b + p[..k], b + p;
    assert full == cut + p[k..];
    FlushExtends(f, cut, p[k..]);
    FlushExtends(f, b, p[..k]);
    if |cut| >= HEADER {
      assert cut[..8] == full[..8] && cut[8..12] == full[8..12] && cut[12..16] == full[12..16];
      assert cut[COUNT_AT..HEADER] == full[COUNT_AT..HEADER];
    }
  }

  lemma ReopenedFile(f: Format, name: string, b: seq<byte>)
    requires SoundFile(f, name, b) && |b| >= HEADER
    ensures SoundOpenFile(f, name, Repaired(f, b), [], GoodCount(f, Body(b)))
    ensures SlotsIn(f, Repaired(f, b)) == SlotsIn(f, b) && HeaderCount(Repaired(f, b)) <= |SlotsIn(f, b)|
    ensures SoundFile(f, name, Repaired(f, b))
  {
    hide FromLe, Slots, Tail, RecordCrcOk, Repaired, GoodCount;
    AllGood(f, Body(b));
    RepairedFile(f, b);
    var slots := SlotsIn(f, b);
    assert slots[..|slots|] == slots;
    assert Repaired(f, b) + [] == Repaired(f, b);
    ModAtMost(|slots|);
  }

  lemma ModAtMost(n: nat)
    ensures n % U64 <= n
  {
  }

  lemma CutFile(f: Format, name: string, b: seq<byte>)
    requires SoundFile(f, name, b) && |b| >= HEADER
    ensures SoundFile(f, name, CutBack(f, b)) && SlotsIn(f, CutBack(f, b)) == SlotsIn(f, b)
    ensures HeaderCount(CutBack(f, b)) == HeaderCount(b)
  {
    hide FromLe, RecordCrcOk, GoodCount;
    AllGood(f, Body(b));
    GoodBytes(f, Body(b));
    var slots := SlotsIn(f, b);
    assert slots[..|slots|] == slots;
    var cut := CutBack(f, b);
    CutBackKeepsHeader(f, b);
    assert Body(cut) == Flat(slots) + [];
    SlotsOfFlat(f, slots, []);
  }

  lemma LegibleFile(f: Format, name: string, b: seq<byte>, readable: nat)
    requires SoundFile(f, name, b) && |b| >= HEADER
    ensures var c := Legible(f, b, readable);
      && SoundFile(f, name, c) && SlotsIn(f, c) == UpTo(SlotsIn(f, b), readable)
      && HeaderCount(c) == HeaderCount(b) && HeaderOk(f, c)
  {
    hide FromLe, RecordCrcOk, LegibleBody, Slots;
    LegibleHeader(f, b, readable);
    LegibleSlots(f, Body(b), readable);
  }

  lemma CreatedFile(f: Format, name: string)
    ensures SoundOpenFile(f, name, [], Header(f, 0), 0)
    ensures SlotsIn(f, [] + Header(f, 0)) == [] && HeaderCount([] + Header(f, 0)) == 0
  {
    HeaderIsOk(f, 0, []);
    assert [] + Header(f, 0) == Header(f, 0) + [];
  }

  lemma AppendedFile(f: Format, name: string, b: seq<byte>, p: seq<byte>, count: nat, r: Record)
    requires SoundOpenFile(f, name, b, p, count)
    requires IsRecord(f, r) && (RecvTs(f, r) > 0 ==> HourlyFileName(f.prefix, RecvTs(f, r)) == name)
    ensures SoundOpenFile(f, name, b, p + Stamp(f, r), count + 1)
    ensures SlotsIn(f, b + (p + Stamp(f, r))) == SlotsIn(f, b + p) + [Stamp(f, r)]
    ensures |b + p| >= HEADER && HeaderCount(b + (p + Stamp(f, r))) == HeaderCount(b + p)
  {
    hide FromLe, RecordCrcOk, Stamp, HourlyFileName;
    var s, full := Stamp(f, r), b + p;
    assert b + (p + s) == full + s;
    assert Body(full + s) == Body(full) + s;
    SlotsOfConcat(f, Body(full), s);
    assert [] + s == s;
    OneSlot(f, s);
    assert (full + s)[..8] == full[..8] && (full + s)[8..12] == full[8..12] && (full + s)[12..16] == full[12..16];
    assert (full + s)[COUNT_AT..HEADER] == full[COUNT_AT..HEADER];
    StampIsAccepted(f, r);
  }

  lemma OneSlot(f: Format, r: Record)
    requires IsRecord(f, r)
    ensures Slots(f, r) == [r] && Tail(f, r) == []
  {
    assert r[..f.size] == r && r[f.size..] == [];
  }

  // ------------------------------------------------------------------- one step

  /** Nothing complete in the directory is lost or altered. */
  ghost predicate DurableKept(f: Format, s: GoodStore, t: GoodStore) {
    forall n :: Durable(f, s, n) <= Durable(f, t, n)
  }

  ghost predicate SameContents(f: Format, s: GoodStore, t: GoodStore) {
    forall n :: Contents(f, s, n) == Contents(f, t, n)
  }

  lemma PersistStep(f: Format, s: GoodStore)
    requires Sound(f, s)
    ensures Sound(f, PersistHeaderCount(s)) && Sound(f, CloseCurrentFile(s))
    ensures DurableKept(f, s, PersistHeaderCount(s)) && DurableKept(f, s, CloseCurrentFile(s))
    ensures SameContents(f, s, PersistHeaderCount(s)) && SameContents(f, s, CloseCurrentFile(s))
    ensures forall n :: Durable(f, PersistHeaderCount(s), n) == Contents(f, s, n)
  {
    hide SoundFile, SoundOpenFile, SlotsIn, WithCount;
    match s.file
    case NoFile =>
    case Open(name, pending, count) =>
      var b := s.disk[name];
      PersistedFile(f, name, b, pending, count);
      FlushExtends(f, b, pending);
      var c := WithCount(b + pending, count);
      assert c + [] == c;
  }

  lemma CrashStep(f: Format, s: GoodStore, kept: nat)
    requires Sound(f, s)
    ensures Sound(f, CrashKeeping(s, kept))
    ensures DurableKept(f, s, CrashKeeping(s, kept))
    ensures forall n :: Contents(f, CrashKeeping(s, kept), n) <= Contents(f, s, n)
  {
    hide SoundFile, SoundOpenFile, SlotsIn;
    match s.file
    case NoFile =>
    case Open(name, pending, count) =>
      CrashedFile(f, name, s.disk[name], pending, count, if kept < |pending| then kept else |pending|);
  }

  /** What repair keeps when slots cannot be read: the records before the first such slot. */
  lemma RepairSteps(f: Format, s: GoodStore, name: string, readable: nat)
    requires Sound(f, s) && IsHourlyName(f.prefix, name)
    ensures Sound(f, CrashInRepair(f, s, name, readable)) && Sound(f, RepairUpTo(f, s, name, readable))
    ensures s.file.Open? ==> CrashInRepair(f, s, name, readable) == s == RepairUpTo(f, s, name, readable)
    ensures s.file.NoFile? ==>
              CrashInRepair(f, s, name, readable).file.NoFile? && RepairUpTo(f, s, name, readable).file.NoFile?
    ensures forall n :: Contents(f, CrashInRepair(f, s, name, readable), n)
                     == if s.file.NoFile? && n == name then UpTo(Contents(f, s, n), readable) else Contents(f, s, n)
    ensures forall n :: Contents(f, RepairUpTo(f, s, name, readable), n)
                     == if s.file.NoFile? && n == name then UpTo(Contents(f, s, n), readable) else Contents(f, s, n)
  {
    hide SoundFile, SoundOpenFile, SlotsIn, HeaderOk, Repaired, CutBack, Legible;
    if s.file.NoFile? && name in s.disk {
      var b := s.disk[name];
      assert SoundFile(f, name, b);
      HeaderDecides(f, name, b);
      if |b| >= HEADER {
        LegibleFile(f, name, b, readable);
        var c := Legible(f, b, readable);
        HasHeader(f, c);
        CutFile(f, name, c);
        ReopenedFile(f, name, c);
      } else {
        NothingWithoutHeader(f, b);
      }
    }
  }

  lemma NothingWithoutHeader(f: Format, b: seq<byte>)
    requires |b| < HEADER
    ensures SlotsIn(f, b) == []
  {
  }

  lemma EraseStep(f: Format, s: GoodStore, name: string)
    requires Sound(f, s)
    ensures Sound(f, EraseFile(s, name)) && EraseFile(s, name).file == s.file
    ensures s.file.Open? ==> EraseFile(s, name) == s
    ensures forall n :: Contents(f, EraseFile(s, name), n)
                     == if s.file.NoFile? && n == name then [] else Contents(f, s, n)
  {
    hide SoundFile, SoundOpenFile, SlotsIn;
  }

  /** Reopening works on every file that was not cut off inside its header, and only on those. */
  lemma OpenStep(f: Format, s: GoodStore, name: string)
    requires Sound(f, s) && s.file.NoFile? && IsHourlyName(f.prefix, name)
    ensures var o := OpenHourFile(f, s, name);
      && Sound(f, o.store) && DurableKept(f, s, o.store) && SameContents(f, s, o.store)
      && o.ok == (name !in s.disk || |s.disk[name]| >= HEADER)
      && (o.ok ==> o.store.file.Open? && o.store.file.name == name)
  {
    hide SoundFile, SoundOpenFile, SlotsIn, HeaderOk, Repaired, Header;
    if name in s.disk {
      var b := s.disk[name];
      assert SoundFile(f, name, b);
      assert HeaderOk(f, b) == (|b| >= HEADER) by {
        HeaderDecides(f, name, b);
      }
      if |b| >= HEADER {
        ReopenedFile(f, name, b);
        assert Repaired(f, b) + [] == Repaired(f, b);
      }
    } else {
      CreatedFile(f, name);
      NothingInEmptyFile(f);
    }
  }

  lemma HeaderDecides(f: Format, name: string, b: seq<byte>)
    requires SoundFile(f, name, b)
    ensures HeaderOk(f, b) == (|b| >= HEADER)
  {
  }

  lemma NothingInEmptyFile(f: Format)
    ensures SlotsIn(f, []) == []
  {
  }

  lemma SelectStep(f: Format, s: GoodStore, name: string)
    requires Sound(f, s) && IsHourlyName(f.prefix, name)
    ensures var o := SelectFile(f, s, name);
      && Sound(f, o.store) && DurableKept(f, s, o.store) && SameContents(f, s, o.store)
      && o.ok == ((s.file.Open? && s.file.name == name) || name !in s.disk || |s.disk[name]| >= HEADER)
      && (o.ok ==> o.store.file.Open? && o.store.file.name == name)
  {
    hide Sound, Durable, Contents, OpenHourFile;
    PersistStep(f, s);
    var closed := CloseCurrentFile(s);
    OpenStep(f, closed, name);
    if !(s.file.Open? && s.file.name == name) {
      assert name in closed.disk <==> name in s.disk;
      assert name in s.disk ==> closed.disk[name] == s.disk[name];
      DurableKeptTwice(f, s, closed, OpenHourFile(f, closed, name).store);
    } else {
      SameStoreKept(f, s);
    }
  }

  lemma SameStoreKept(f: Format, s: GoodStore)
    ensures DurableKept(f, s, s) && SameContents(f, s, s)
  {
  }

  lemma DurableKeptTwice(f: Format, s: GoodStore, t: GoodStore, u: GoodStore)
    requires DurableKept(f, s, t) && DurableKept(f, t, u)
    ensures DurableKept(f, s, u)
  {
    forall n ensures Durable(f, s, n) <= Durable(f, u, n) {
      assert Durable(f, s, n) <= Durable(f, t, n) <= Durable(f, u, n);
    }
  }

  /**
   A write either appends the stamped record to the file of its hour and touches
   nothing else, or is refused because that file was cut off inside its header.
   */
  lemma {:induction false} WriteStep(f: Format, s: GoodStore, r: Record, now: int)
    requires Sound(f, s) && ValidEvent(f, Write(r, now))
    ensures var name := FileFor(f, r, now);
      var o := WriteToFile(f, s, r, now);
      && Sound(f, o.store) && DurableKept(f, s, o.store)
      && o.ok == ((s.file.Open? && s.file.name == name) || name !in s.disk || |s.disk[name]| >= HEADER)
      && (!o.ok ==> SameContents(f, s, o.store))
      && (o.ok ==> forall n :: Contents(f, o.store, n) == Contents(f, s, n) + if n == name then [Stamp(f, r)] else [])
  {
    hide SoundFile, SoundOpenFile, SlotsIn, SelectFile, Stamp, HourlyFileName, DurableKept, SameContents;
    var name := FileFor(f, r, now);
    GeneratedNameIsRecognised(f.prefix, f.prefix, FilingTs(f, r, now));
    SelectStep(f, s, name);
    var t := SelectFile(f, s, name).store;
    if SelectFile(f, s, name).ok {
      AppendedFile(f, name, t.disk[name], t.file.pending, t.file.count, r);
      AppendStep(f, s, t, r);
    }
  }

  /** Within an hour the file stays open and the bytes are buffered; a new hour counts and closes the old file. */
  lemma {:induction false} RollsAtTheHour(f: Format, s: GoodStore, r: Record, now: int)
    requires Sound(f, s) && ValidEvent(f, Write(r, now)) && s.file.Open?
    ensures var name, t := s.file.name, WriteToFile(f, s, r, now).store;
      if FileFor(f, r, now) == name then
        t == Store(s.disk, Open(name, s.file.pending + Stamp(f, r), s.file.count + 1))
      else
        && name in t.disk && |t.disk[name]| >= HEADER && HeaderCount(t.disk[name]) == s.file.count % U64
        && Durable(f, t, name) == Contents(f, s, name) && !(t.file.Open? && t.file.name == name)
  {
    hide SlotsIn, Stamp, HourlyFileName, HeaderOk, Repaired, GoodCount, HeaderCount, WithCount, InRange, Tail, Belong;
    var name := s.file.name;
    PersistedFile(f, name, s.disk[name], s.file.pending, s.file.count);
    WithCountKeeps(f, s.disk[name] + s.file.pending, s.file.count);
  }

  /**
   A record whose receive-time bytes say recv is appended to the file whose name spells the
   UTC hour of recv, or of the clock's now when recv is not positive.
   */
  lemma {:induction false} RecordIsFiledByItsTime(f: Format, s: GoodStore, r: Record, now: int, recv: int, t: Tm)
    requires Sound(f, s) && ValidEvent(f, Write(r, now))
    requires -(I64_LIMIT as int) <= recv < I64_LIMIT
    requires r[f.tsAt..f.tsAt + 8] == ToLe(if recv < 0 then recv + U64 else recv, 8)
    requires ValidTm(t) && SecondsSinceEpoch(t) == (if recv > 0 then recv else now) / 1_000_000
    ensures var o := WriteToFile(f, s, r, now);
      o.ok ==>
        && o.store.file.Open? && Reads(o.store.file.name, f.prefix, t)
        && |o.store.file.name| == |f.prefix| + 16
        && Contents(f, o.store, o.store.file.name) == Contents(f, s, o.store.file.name) + [Stamp(f, r)]
        && forall n :: n != o.store.file.name ==> Contents(f, o.store, n) == Contents(f, s, n)
  {
    hide Sound, SlotsIn, Stamp, HourlyFileName, HeaderOk, Repaired, Contents, Reads, ValidTm, SecondsSinceEpoch, RecvTs, ToLe;
    ReceiveTimeField(f, r, recv);
    NameReads(f.prefix, FilingTs(f, r, now), t);
    WriteStep(f, s, r, now);
    var o := WriteToFile(f, s, r, now);
    assert o.ok ==> o.store.file.Open? && o.store.file.name == FileFor(f, r, now);
  }

  /** Two records received at 2023-11-14 22:13:20 UTC. */
  lemma KnownFiles(trade: Record, book: Record, now: int)
    requires IsRecord(TRADE, trade) && trade[8..16] == ToLe(1_700_000_000_000_000, 8)
    requires IsRecord(ORDER_BOOK, book) && book[8..16] == ToLe(1_700_000_000_000_000, 8)
    ensures FileFor(TRADE, trade, now) == "trades_20231114_22.bin"
    ensures FileFor(ORDER_BOOK, book, now) == "orderbooks_20231114_22.bin"
  {
    hide HourlyFileName, RecvTs, ToLe;
    ReceiveTimeField(TRADE, trade, 1_700_000_000_000_000);
    ReceiveTimeField(ORDER_BOOK, book, 1_700_000_000_000_000);
    KnownName(TRADE.prefix);
    KnownName(ORDER_BOOK.prefix);
    assert TRADE.prefix + "_20231114_22.bin" == "trades_20231114_22.bin";
    assert ORDER_BOOK.prefix + "_20231114_22.bin" == "orderbooks_20231114_22.bin";
  }

  lemma AppendStep(f: Format, s: GoodStore, t: GoodStore, r: Record)
    requires IsRecord(f, r) && t.file.Open? && DurableKept(f, s, t) && SameContents(f, s, t)
    requires SlotsIn(f, t.disk[t.file.name] + (t.file.pending + Stamp(f, r)))
          == SlotsIn(f, t.disk[t.file.name] + t.file.pending) + [Stamp(f, r)]
    ensures DurableKept(f, s, Append(f, t, r))
    ensures forall n :: Contents(f, Append(f, t, r), n)
                     == Contents(f, s, n) + if n == t.file.name then [Stamp(f, r)] else []
  {
    hide SlotsIn, Stamp;
    var u := Append(f, t, r);
    forall n ensures Durable(f, s, n) <= Durable(f, u, n) {
      assert Durable(f, s, n) <= Durable(f, t, n);
    }
    forall n ensures Contents(f, u, n) == Contents(f, s, n) + if n == t.file.name then [Stamp(f, r)] else [] {
      assert Contents(f, s, n) == Contents(f, t, n);
    }
  }

  /**
   The events that lose complete records: a slot of them cannot be read while the file is
   repaired, or the file reads as missing.
   */
  ghost predicate Loses(f: Format, s: GoodStore, e: Event) {
    s.file.NoFile? &&
    match e
    case RepairCrash(name, readable) => readable < |Durable(f, s, name)|
    case Repair(name, readable) => readable < |Durable(f, s, name)|
    case Erase(name) => Durable(f, s, name) != []
    case _ => false
  }

  /** Every step keeps the directory sound, and loses something exactly when it is one of those. */
  lemma StepIsSound(f: Format, s: GoodStore, e: Event)
    requires Sound(f, s) && ValidEvent(f, e)
    ensures Sound(f, Apply(f, s, e).store)
    ensures DurableKept(f, s, Apply(f, s, e).store) <==> !Loses(f, s, e)
  {
    hide Sound, DurableKept, WriteToFile, PersistHeaderCount, CloseCurrentFile, CrashKeeping, CrashInRepair,
         RepairUpTo, EraseFile, Durable;
    match e
    case Write(r, now) => WriteStep(f, s, r, now);
    case Persist => PersistStep(f, s);
    case Close => PersistStep(f, s);
    case Crash(kept) => CrashStep(f, s, kept);
    case RepairCrash(name, readable) =>
      RepairSteps(f, s, name, readable);
      LossOf(f, s, CrashInRepair(f, s, name, readable), name, UpTo(Contents(f, s, name), readable));
    case Repair(name, readable) =>
      RepairSteps(f, s, name, readable);
      LossOf(f, s, RepairUpTo(f, s, name, readable), name, UpTo(Contents(f, s, name), readable));
    case Erase(name) =>
      EraseStep(f, s, name);
      LossOf(f, s, EraseFile(s, name), name, []);
  }

  lemma LossOf(f: Format, s: GoodStore, t: GoodStore, name: string, left: seq<Record>)
    requires s.file.NoFile? ==> t.file.NoFile? && left <= Contents(f, s, name)
    requires s.file.Open? ==> t == s
    requires s.file.NoFile? ==> forall n :: Contents(f, t, n) == if n == name then left else Contents(f, s, n)
    ensures DurableKept(f, s, t) <==> s.file.Open? || |left| == |Contents(f, s, name)|
    ensures s.file.NoFile? ==> Contents(f, s, name) == Durable(f, s, name)
  {
    hide SlotsIn;
    if s.file.NoFile? {
      assert forall n :: Contents(f, s, n) == Durable(f, s, n) && Contents(f, t, n) == Durable(f, t, n);
      if |left| == |Contents(f, s, name)| {
        assert left == Contents(f, s, name);
      } else {
        assert !(Durable(f, s, name) <= Durable(f, t, name));
      }
    } else {
      SameStoreKept(f, s);
    }
  }

  // ------------------------------------------------------------- what headers claim

  /** The event that leaves a header claiming too much: a file cut short, and then not counted. */
  ghost predicate Overclaims(f: Format, s: GoodStore, e: Event) {
    && e.RepairCrash? && s.file.NoFile? && e.name in s.disk && |s.disk[e.name]| >= HEADER
    && e.readable < HeaderCount(s.disk[e.name])
  }

  lemma HonestPersist(f: Format, s: GoodStore)
    requires Sound(f, s) && Honest(f, s)
    ensures Honest(f, PersistHeaderCount(s)) && Honest(f, CloseCurrentFile(s))
  {
    hide SoundFile, SlotsIn, WithCount, HeaderCount;
    match s.file
    case NoFile =>
    case Open(name, pending, count) =>
      var b := s.disk[name];
      assert count == |SlotsIn(f, b + pending)|;
      PersistedFile(f, name, b, pending, count);
      var c := WithCount(b + pending, count);
      assert c + [] == c;
  }

  lemma HonestCrash(f: Format, s: GoodStore, kept: nat)
    requires Sound(f, s) && Honest(f, s)
    ensures Honest(f, CrashKeeping(s, kept))
  {
    hide SoundFile, SoundOpenFile, SlotsIn, HeaderCount, HonestFile;
    match s.file
    case NoFile =>
    case Open(name, pending, count) =>
      CrashedFile(f, name, s.disk[name], pending, count, if kept < |pending| then kept else |pending|);
  }

  lemma HonestOpen(f: Format, s: GoodStore, name: string)
    requires Sound(f, s) && Honest(f, s) && s.file.NoFile? && IsHourlyName(f.prefix, name)
    ensures Honest(f, OpenHourFile(f, s, name).store)
  {
    hide SoundFile, SoundOpenFile, SlotsIn, HeaderOk, Repaired, Header, HeaderCount;
    if name in s.disk {
      var b := s.disk[name];
      assert SoundFile(f, name, b);
      HeaderDecides(f, name, b);
      if |b| >= HEADER {
        ReopenedFile(f, name, b);
        assert Repaired(f, b) + [] == Repaired(f, b);
      }
    } else {
      CreatedFile(f, name);
    }
  }

  lemma HonestWrite(f: Format, s: GoodStore, r: Record, now: int)
    requires Sound(f, s) && Honest(f, s) && ValidEvent(f, Write(r, now))
    ensures Honest(f, WriteToFile(f, s, r, now).store)
  {
    hide SoundFile, SlotsIn, Stamp, HourlyFileName, Honest, OpenHourFile, CloseCurrentFile, Sound, FilingTs;
    var name := FileFor(f, r, now);
    GeneratedNameIsRecognised(f.prefix, f.prefix, FilingTs(f, r, now));
    PersistStep(f, s);
    HonestPersist(f, s);
    ClosedFile(s);
    HonestOpen(f, CloseCurrentFile(s), name);
    SelectStep(f, s, name);
    HonestAppend(f, SelectFile(f, s, name).store, r);
  }

  lemma ClosedFile(s: GoodStore)
    ensures CloseCurrentFile(s).file.NoFile?
  {
  }

  lemma HonestAppend(f: Format, s: GoodStore, r: Record)
    requires Sound(f, s) && Honest(f, s) && IsRecord(f, r)
    ensures Honest(f, Append(f, s, r))
  {
    hide SoundFile, SlotsIn, Stamp, HonestFile, FromLe;
    if s.file.Open? {
      var full := s.disk[s.file.name] + s.file.pending;
      var more := s.disk[s.file.name] + (s.file.pending + Stamp(f, r));
      assert |full| >= HEADER;
      assert more[COUNT_AT..HEADER] == full[COUNT_AT..HEADER];
    }
  }

  lemma HonestRepair(f: Format, s: GoodStore, name: string, readable: nat)
    requires Sound(f, s) && Honest(f, s) && IsHourlyName(f.prefix, name)
    ensures Honest(f, RepairUpTo(f, s, name, readable))
    ensures Honest(f, CrashInRepair(f, s, name, readable)) <==> !Overclaims(f, s, RepairCrash(name, readable))
  {
    hide SoundFile, SoundOpenFile, SlotsIn, HeaderOk, Repaired, CutBack, Legible, HeaderCount;
    if s.file.NoFile? && name in s.disk {
      var b := s.disk[name];
      assert SoundFile(f, name, b) && HonestFile(f, b);
      HeaderDecides(f, name, b);
      if |b| >= HEADER {
        LegibleFile(f, name, b, readable);
        var c := Legible(f, b, readable);
        HasHeader(f, c);
        CutFile(f, name, c);
        ReopenedFile(f, name, c);
        CutBackFits(f, c);
        assert name in CrashInRepair(f, s, name, readable).disk;
      }
    }
  }

  lemma HonestErase(f: Format, s: GoodStore, name: string)
    requires Honest(f, s)
    ensures Honest(f, EraseFile(s, name))
  {
    hide SlotsIn, HeaderCount, HonestFile;
  }

  /** A header starts to claim too much exactly when a file cut short is then not counted. */
  lemma StepIsHonest(f: Format, s: GoodStore, e: Event)
    requires Sound(f, s) && Honest(f, s) && ValidEvent(f, e)
    ensures Honest(f, Apply(f, s, e).store) <==> !Overclaims(f, s, e)
  {
    hide Sound, Honest, WriteToFile, PersistHeaderCount, CloseCurrentFile, CrashKeeping, CrashInRepair, RepairUpTo,
         EraseFile;
    match e
    case Write(r, now) => HonestWrite(f, s, r, now);
    case Persist => HonestPersist(f, s);
    case Close => HonestPersist(f, s);
    case Crash(kept) => HonestCrash(f, s, kept);
    case RepairCrash(name, readable) => HonestRepair(f, s, name, readable);
    case Repair(name, readable) => HonestRepair(f, s, name, readable);
    case Erase(name) => HonestErase(f, s, name);
  }

  // ------------------------------------------------------------------ whole runs

  /** Nothing complete is ever lost on the way. */
  ghost predicate NoLoss(f: Format, s: GoodStore, es: seq<Event>)
    requires ValidRun(f, es)
  {
    forall i :: 0 <= i < |es| ==> !Loses(f, Run(f, s, es[..i]), es[i])
  }

  lemma NoLossBefore(f: Format, s: GoodStore, es: seq<Event>)
    requires ValidRun(f, es) && es != [] && NoLoss(f, s, es)
    ensures NoLoss(f, s, es[..|es| - 1])
    ensures !Loses(f, Run(f, s, es[..|es| - 1]), es[|es| - 1])
  {
    hide Loses, ValidEvent, Run;
    var n := |es| - 1;
    forall i | 0 <= i < n ensures !Loses(f, Run(f, s, es[..n][..i]), es[..n][i]) {
      assert es[..n][..i] == es[..i];
    }
  }

  /**
   Crash safety, over any history of writes, count updates, closes, crashes and
   reopenings: the directory stays sound, and unless a slot could not be read or a file
   read as missing, a record once complete in the directory is never lost, changed or
   moved.
   */
  lemma {:induction false} RunIsSound(f: Format, s: GoodStore, es: seq<Event>)
    requires Sound(f, s) && ValidRun(f, es)
    ensures Sound(f, Run(f, s, es))
    ensures NoLoss(f, s, es) ==> DurableKept(f, s, Run(f, s, es))
  {
    hide Sound, DurableKept, Apply, Loses;
    if es == [] {
      SameStoreKept(f, s);
    } else {
      var n := |es| - 1;
      RunIsSound(f, s, es[..n]);
      StepIsSound(f, Run(f, s, es[..n]), es[n]);
      if NoLoss(f, s, es) {
        NoLossBefore(f, s, es);
        DurableKeptTwice(f, s, Run(f, s, es[..n]), Run(f, s, es));
      }
    }
  }

  /** Over any history, every step keeps all complete records exactly when none of these losses occurs. */
  lemma {:induction false} LossExactlyWhen(f: Format, s: GoodStore, es: seq<Event>)
    requires Sound(f, s) && ValidRun(f, es)
    ensures (forall i :: 0 <= i < |es| ==> DurableKept(f, Run(f, s, es[..i]), Apply(f, Run(f, s, es[..i]), es[i]).store))
       <==> NoLoss(f, s, es)
  {
    hide Sound, DurableKept, Apply, Loses, Run;
    forall i | 0 <= i < |es|
      ensures DurableKept(f, Run(f, s, es[..i]), Apply(f, Run(f, s, es[..i]), es[i]).store)
         <==> !Loses(f, Run(f, s, es[..i]), es[i])
    {
      RunIsSound(f, s, es[..i]);
      StepIsSound(f, Run(f, s, es[..i]), es[i]);
    }
  }

  /** So over any history without that, no header claims more complete records than its file holds. */
  lemma {:induction false} RunIsHonest(f: Format, s: GoodStore, es: seq<Event>)
    requires Sound(f, s) && Honest(f, s) && ValidRun(f, es)
    requires forall i :: 0 <= i < |es| ==> !Overclaims(f, Run(f, s, es[..i]), es[i])
    ensures Honest(f, Run(f, s, es))
  {
    hide Sound, Honest, Apply, Overclaims, ValidEvent;
    if es != [] {
      var n := |es| - 1;
      forall i | 0 <= i < n ensures !Overclaims(f, Run(f, s, es[..n][..i]), es[..n][i]) {
        assert es[..n][..i] == es[..i];
      }
      RunIsHonest(f, s, es[..n]);
      RunIsSound(f, s, es[..n]);
      StepIsHonest(f, Run(f, s, es[..n]), es[n]);
    }
  }

  /** A directory without files of this stream is a sound start. */
  lemma FreshDirectoryIsSound(f: Format, disk: Disk)
    requires forall n :: n in disk ==> !IsHourlyName(f.prefix, n)
    ensures Sound(f, Store(disk, NoFile)) && Honest(f, Store(disk, NoFile))
  {
  }

  /**
   After a count update everything accepted so far is in the directory: it heads every
   file's contents whatever crashes and reopenings follow, as long as nothing is lost.
   */
  lemma {:induction false} PersistedRecordsSurvive(f: Format, s: GoodStore, before: seq<Event>, after: seq<Event>, name: string)
    requires Sound(f, s) && ValidRun(f, before) && ValidRun(f, after)
    requires NoLoss(f, PersistHeaderCount(Run(f, s, before)), after)
    ensures var persisted := PersistHeaderCount(Run(f, s, before));
            Contents(f, Run(f, s, before), name) <= Durable(f, Run(f, persisted, after), name)
  {
    hide Run, Sound, Contents, PersistHeaderCount, NoLoss;
    RunIsSound(f, s, before);
    PersistStep(f, Run(f, s, before));
    RunIsSound(f, PersistHeaderCount(Run(f, s, before)), after);
    assert DurableKept(f, PersistHeaderCount(Run(f, s, before)), Run(f, PersistHeaderCount(Run(f, s, before)), after));
  }

  /**
   The next reopen after any history: refused exactly when the crash cut the file
   inside its header; otherwise every complete record is kept, and appending resumes on a
   slot boundary.
   */
  lemma {:induction false} ReopenAfterCrash(f: Format, s: GoodStore, es: seq<Event>, name: string)
    requires Sound(f, s) && ValidRun(f, es) && Run(f, s, es).file.NoFile?
    requires IsHourlyName(f.prefix, name) && name in Run(f, s, es).disk
    ensures var t := Run(f, s, es);
      var b := t.disk[name];
      var o := OpenHourFile(f, t, name);
      && o.ok == (|b| >= HEADER)
      && (o.ok ==>
            && SlotsIn(f, o.store.disk[name]) == SlotsIn(f, b)
            && Tail(f, Body(o.store.disk[name])) == []
            && o.store.file == Open(name, [], |SlotsIn(f, b)|))
  {
    hide Run, SlotsIn, Repaired, HeaderOk, Tail, GoodCount, FromLe, Belong;
    RunIsSound(f, s, es);
    var t := Run(f, s, es);
    var b := t.disk[name];
    assert SoundFile(f, name, b);
    HeaderDecides(f, name, b);
    if |b| >= HEADER {
      ReopenedFile(f, name, b);
      assert Repaired(f, b) + [] == Repaired(f, b);
    }
  }

  // ------------------------------------------------------------ cut inside the header

  /** A file nobody has open that holds less than its header. */
  ghost predicate TornHeader(s: GoodStore, name: string) {
    name in s.disk && |s.disk[name]| < HEADER && !(s.file.Open? && s.file.name == name)
  }

  /**
   It happens: the first write to an hour, then a crash before the buffer is flushed, for
   every record and every directory that lacks the hour's file.
   */
  lemma FirstWriteCanBeTorn(f: Format, disk: Disk, r: Record, now: int, kept: nat)
    requires IsRecord(f, r) && InRange(FilingTs(f, r, now)) && FileFor(f, r, now) !in disk && kept < HEADER
    ensures var es := [Write(r, now), Crash(kept)];
      ValidRun(f, es) && TornHeader(Run(f, Store(disk, NoFile), es), FileFor(f, r, now))
  {
    hide FileFor, Stamp, FilingTs, InRange;
    var es := [Write(r, now), Crash(kept)];
    assert es[..1] == [Write(r, now)] && es[..1][..0] == [];
    assert ValidEvent(f, es[0]) && ValidEvent(f, es[1]);
    assert Run(f, Store(disk, NoFile), es[..1]) == WriteToFile(f, Store(disk, NoFile), r, now).store;
  }

  lemma TornHeaderStep(f: Format, s: GoodStore, e: Event, name: string)
    requires TornHeader(s, name) && ValidEvent(f, e) && e != Erase(name)
    ensures TornHeader(Apply(f, s, e).store, name) && Apply(f, s, e).store.disk[name] == s.disk[name]
    ensures e.Write? && FileFor(f, e.record, e.now) == name ==> !Apply(f, s, e).ok
  {
    hide FileFor, Stamp, WithCount, Repaired, GoodCount, GoodLength, FilingTs, InRange, IsHourlyName;
  }

  /**
   And it stays: whatever happens later, the bytes are the same and every write to that
   hour is refused, until the file once reads as missing.
   */
  lemma {:induction false} TornHeaderStays(f: Format, s: GoodStore, es: seq<Event>, name: string)
    requires TornHeader(s, name) && ValidRun(f, es) && Erase(name) !in es
    ensures TornHeader(Run(f, s, es), name) && Run(f, s, es).disk[name] == s.disk[name]
    ensures forall i :: 0 <= i < |es| && es[i].Write? && FileFor(f, es[i].record, es[i].now) == name ==>
              !Apply(f, Run(f, s, es[..i]), es[i]).ok
  {
    hide Apply, TornHeader, FileFor;
    if es != [] {
      var n := |es| - 1;
      TornHeaderStays(f, s, es[..n], name);
      TornHeaderStep(f, Run(f, s, es[..n]), es[n], name);
      forall i | 0 <= i < |es| && es[i].Write? && FileFor(f, es[i].record, es[i].now) == name
        ensures !Apply(f, Run(f, s, es[..i]), es[i]).ok
      {
        if i < n {
          assert es[..n][..i] == es[..i] && es[..n][i] == es[i];
        }
      }
    }
  }

  // ------------------------------------------------------------------- joining runs

  lemma {:induction false} RunConcat(f: Format, s: GoodStore, a: seq<Event>, b: seq<Event>)
    requires ValidRun(f, a) && ValidRun(f, b)
    ensures ValidRun(f, a + b) && Run(f, s, a + b) == Run(f, Run(f, s, a), b)
  {
    hide ValidEvent, Apply;
    if b == [] {
      assert a + b == a;
    } else {
      var n := |b| - 1;
      RunConcat(f, s, a, b[..n]);
      assert (a + b)[..|a + b| - 1] == a + b[..n];
    }
  }
}
