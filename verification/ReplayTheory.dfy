/**
 What a scan of a directory delivers, in terms of the slots its files hold, and what
 the writer's histories put there.
 */
module ReplayTheory {
  import opened Crc32
  import opened CrcTheory
  import opened ByteCodec
  import opened RecordFormat
  import opened DataDirectory
  import opened RecordIntegrity
  import opened TextOrder
  import opened FileRoll
  import opened FileStore
  import opened RecordReader

  /** The complete slots of the listed files, one file after the other. */
  function AllSlots(f: Format, disk: Disk, files: seq<string>): (rs: seq<Record>)
    ensures AreRecords(f, rs)
  {
    if files == [] then [] else FileSlots(f, disk, files[0]) + AllSlots(f, disk, files[1..])
  }

  /** The leading slots that pass their check. */
  function GoodHead(f: Format, slots: seq<Record>): (k: nat)
    requires AreRecords(f, slots)
    ensures k <= |slots|
    ensures forall i :: 0 <= i < k ==> RecordCrcOk(f, slots[i])
    ensures k < |slots| ==> !RecordCrcOk(f, slots[k])
  {
    if slots != [] && RecordCrcOk(f, slots[0]) then 1 + GoodHead(f, slots[1..]) else 0
  }

  function InWindow(f: Format, rs: seq<Record>, window: TimeWindow): (ws: seq<Record>)
    requires AreRecords(f, rs)
    ensures AreRecords(f, ws)
  {
    if rs == [] then []
    else (if window.Contains(RecvTs(f, rs[0])) then [rs[0]] else []) + InWindow(f, rs[1..], window)
  }

  /** Each record of the window as often as before, and no other. */
  lemma {:induction false} InWindowCounts(f: Format, rs: seq<Record>, window: TimeWindow, r: Record)
    requires AreRecords(f, rs) && IsRecord(f, r)
    ensures multiset(InWindow(f, rs, window))[r] == if window.Contains(RecvTs(f, r)) then multiset(rs)[r] else 0
  {
    hide RecvTs;
    if rs != [] {
      InWindowCounts(f, rs[1..], window, r);
      assert rs == [rs[0]] + rs[1..];
    }
  }

  lemma {:induction false} InWindowConcat(f: Format, a: seq<Record>, b: seq<Record>, window: TimeWindow)
    requires AreRecords(f, a) && AreRecords(f, b)
    ensures InWindow(f, a + b, window) == InWindow(f, a, window) + InWindow(f, b, window)
  {
    if a == [] {
      assert a + b == b;
    } else {
      assert (a + b)[1..] == a[1..] + b;
      InWindowConcat(f, a[1..], b, window);
    }
  }

  lemma {:induction false} NoWindowKeepsAll(f: Format, rs: seq<Record>)
    requires AreRecords(f, rs)
    ensures InWindow(f, rs, NO_WINDOW) == rs
  {
    if rs != [] {
      NoWindowKeepsAll(f, rs[1..]);
    }
  }

  /** The scan's answer for a list of slots. */
  ghost predicate Delivers(f: Format, scan: Scan, slots: seq<Record>, window: TimeWindow)
    requires AreRecords(f, slots)
  {
    var k := GoodHead(f, slots);
    && scan.delivered == InWindow(f, slots[..k], window)
    && scan.failed == (k < |slots|)
  }

  lemma DeliversOneMore(f: Format, scan: Scan, slot: Record, slots: seq<Record>, window: TimeWindow)
    requires AreRecords(f, slots) && IsRecord(f, slot) && RecordCrcOk(f, slot)
    requires Delivers(f, scan, slots, window)
    ensures Delivers(f, if window.Contains(RecvTs(f, slot)) then Scan([slot] + scan.delivered, scan.failed) else scan,
                     [slot] + slots, window)
  {
    hide RecordCrcOk, RecvTs;
    var all := [slot] + slots;
    assert all[1..] == slots;
    var k := GoodHead(f, slots);
    assert all[..k + 1][1..] == slots[..k];
  }

  lemma {:induction false} ScanRestDelivers(f: Format, disk: Disk, files: seq<string>, i: nat, rest: seq<byte>, window: TimeWindow)
    requires i < |files| && forall n :: n in files ==> Readable(f, disk, n)
    ensures Delivers(f, ScanRest(f, disk, files, i, rest, window), Slots(f, rest) + AllSlots(f, disk, files[i + 1..]), window)
    decreases |files| - i, |rest|
  {
    hide RecordCrcOk, RecvTs, HeaderOk, Delivers;
    var later := AllSlots(f, disk, files[i + 1..]);
    if |rest| >= f.size {
      var slot, rest' := rest[..f.size], rest[f.size..];
      var slots := Slots(f, rest') + later;
      assert Slots(f, rest) + later == [slot] + slots;
      if RecordCrcOk(f, slot) {
        ScanRestDelivers(f, disk, files, i, rest', window);
        DeliversOneMore(f, ScanRest(f, disk, files, i, rest', window), slot, slots, window);
      } else {
        StopsAtDamage(f, [slot] + slots, window);
      }
    } else if i + 1 >= |files| {
      assert Slots(f, rest) + later == [];
      NothingToDeliver(f, window);
    } else {
      var next := files[i + 1];
      assert next in files && Readable(f, disk, next);
      ReadableHasHeader(f, disk, next);
      assert files[i + 1..][0] == next && files[i + 1..][1..] == files[i + 2..];
      ScanRestDelivers(f, disk, files, i + 1, Body(disk[next]), window);
      assert Slots(f, rest) + later == Slots(f, Body(disk[next])) + AllSlots(f, disk, files[i + 2..]);
    }
  }

  lemma ReadableHasHeader(f: Format, disk: Disk, n: string)
    requires Readable(f, disk, n)
    ensures |disk[n]| >= HEADER
  {
  }

  lemma StopsAtDamage(f: Format, slots: seq<Record>, window: TimeWindow)
    requires AreRecords(f, slots) && slots != [] && !RecordCrcOk(f, slots[0])
    ensures Delivers(f, Scan([], true), slots, window)
  {
  }

  lemma NothingToDeliver(f: Format, window: TimeWindow)
    ensures Delivers(f, Scan([], false), [], window)
  {
  }

  /**
   A directory whose headers are sound delivers a prefix of all complete slots in file
   name order: all of them, or those before the first that fails its check.  Torn
   tails are passed over.
   */
  lemma ScanDeliversPrefix(f: Format, disk: Disk, files: seq<string>, window: TimeWindow)
    requires forall n :: n in files ==> Readable(f, disk, n)
    ensures Delivers(f, ScanFiles(f, disk, files, window), AllSlots(f, disk, files), window)
  {
    hide RecordCrcOk, RecvTs, HeaderOk, Delivers, ScanRest;
    if files == [] {
      NothingToDeliver(f, window);
    } else {
      assert files[0] in files && Readable(f, disk, files[0]);
      ReadableHasHeader(f, disk, files[0]);
      ScanRestDelivers(f, disk, files, 0, Body(disk[files[0]]), window);
    }
  }

  // --------------------------------------------------------------------- pruning

  ghost predicate AllReadable(f: Format, disk: Disk) {
    forall n :: n in disk && IsHourlyName(f.prefix, n) ==> Readable(f, disk, n)
  }

  function Selected(prefix: string, names: seq<string>, window: TimeWindow): (s: seq<string>)
    ensures forall n :: n in s <==> n in names && NameInWindow(prefix, n, window)
  {
    if names == [] then []
    else (if NameInWindow(prefix, names[0], window) then [names[0]] else []) + Selected(prefix, names[1..], window)
  }

  lemma {:induction false} SelectedAscends(prefix: string, names: seq<string>, window: TimeWindow)
    requires Ascending(names)
    ensures Ascending(Selected(prefix, names, window))
  {
    hide Less, NameInWindow;
    if names != [] {
      SelectedAscends(prefix, names[1..], window);
      var s := Selected(prefix, names[1..], window);
      forall i | 0 <= i < |s| ensures Less(names[0], s[i]) {
        assert s[i] in s;
        assert s[i] in names[1..];
      }
    }
  }

  /** A windowed listing is the full listing without the pruned names. */
  lemma WindowedListing(prefix: string, present: set<string>, all: seq<string>, some: seq<string>, window: TimeWindow)
    requires IsListing(all, prefix, present, NO_WINDOW) && IsListing(some, prefix, present, window)
    ensures some == Selected(prefix, all, window)
  {
    hide Less, IsHourlyName;
    SelectedAscends(prefix, all, window);
    AscendingIsUnique(some, Selected(prefix, all, window));
  }

  lemma {:induction false} AllGoodHead(f: Format, slots: seq<Record>)
    requires AreRecords(f, slots) && forall i :: 0 <= i < |slots| ==> RecordCrcOk(f, slots[i])
    ensures GoodHead(f, slots) == |slots|
  {
  }

  /** In a sound directory nothing fails its check. */
  lemma {:induction false} SoundSlotsAreGood(f: Format, disk: Disk, files: seq<string>)
    requires Sound(f, Store(disk, NoFile))
    requires forall n :: n in files ==> n in disk && IsHourlyName(f.prefix, n)
    ensures forall i :: 0 <= i < |AllSlots(f, disk, files)| ==> RecordCrcOk(f, AllSlots(f, disk, files)[i])
  {
    hide RecordCrcOk, IsHourlyName, HeaderOk, RecvTs;
    if files != [] {
      assert files[0] in files;
      assert SoundFile(f, files[0], disk[files[0]]);
      SoundSlotsAreGood(f, disk, files[1..]);
    }
  }

  /** Every record of the directory has a receive time the calendar covers. */
  ghost predicate TimesInRange(f: Format, disk: Disk) {
    forall n, r :: n in disk && IsHourlyName(f.prefix, n) && r in FileSlots(f, disk, n) ==>
      RecvTs(f, r) > 0 && InRange(RecvTs(f, r))
  }

  /** A pruned file holds nothing the window wants. */
  lemma {:induction false} PrunedFileIsOutside(f: Format, name: string, rs: seq<Record>, window: TimeWindow)
    requires AreRecords(f, rs) && Belong(f, name, rs)
    requires forall r :: r in rs ==> RecvTs(f, r) > 0 && InRange(RecvTs(f, r))
    requires PrunesSafely(window)
    requires !NameInWindow(f.prefix, name, window)
    ensures InWindow(f, rs, window) == []
  {
    hide RecordCrcOk, NameInWindow, RecvTs, HourlyFileName, InRange;
    if rs != [] {
      assert rs[0] in rs;
      if window.Contains(RecvTs(f, rs[0])) {
        PruningKeepsMatches(f.prefix, RecvTs(f, rs[0]), window);
      }
      PrunedFileIsOutside(f, name, rs[1..], window);
    }
  }

  lemma {:induction false} PruningLosesNothing(f: Format, disk: Disk, files: seq<string>, window: TimeWindow)
    requires Sound(f, Store(disk, NoFile)) && TimesInRange(f, disk)
    requires forall n :: n in files ==> n in disk && IsHourlyName(f.prefix, n)
    requires PrunesSafely(window)
    ensures InWindow(f, AllSlots(f, disk, Selected(f.prefix, files, window)), window)
         == InWindow(f, AllSlots(f, disk, files), window)
  {
    hide RecordCrcOk, NameInWindow, RecvTs, HourlyFileName, InRange, IsHourlyName, HeaderOk, SlotsIn;
    if files != [] {
      var name, rest := files[0], files[1..];
      assert name in files;
      PruningLosesNothing(f, disk, rest, window);
      var slots := FileSlots(f, disk, name);
      InWindowConcat(f, slots, AllSlots(f, disk, rest), window);
      var picked := Selected(f.prefix, rest, window);
      if NameInWindow(f.prefix, name, window) {
        assert ([name] + picked)[1..] == picked;
        InWindowConcat(f, slots, AllSlots(f, disk, picked), window);
      } else {
        assert [] + picked == picked;
        assert SoundFile(f, name, disk[name]);
        SoundFileBelongs(f, name, disk[name]);
        PrunedFileIsOutside(f, name, slots, window);
      }
    }
  }

  lemma SoundFileBelongs(f: Format, name: string, b: seq<byte>)
    requires SoundFile(f, name, b)
    ensures Belong(f, name, SlotsIn(f, b))
  {
  }

  /**
   Pruning by name is exact: on any sound directory, a windowed replay delivers the full
   replay's records that the window contains, though it opens only some of the files.
   */
  lemma {:induction false} PruningIsExact(f: Format, disk: Disk, all: seq<string>, some: seq<string>, window: TimeWindow)
    requires Sound(f, Store(disk, NoFile)) && TimesInRange(f, disk) && AllReadable(f, disk)
    requires PrunesSafely(window)
    requires IsListing(all, f.prefix, disk.Keys, NO_WINDOW) && IsListing(some, f.prefix, disk.Keys, window)
    ensures !ScanFiles(f, disk, all, NO_WINDOW).failed && !ScanFiles(f, disk, some, window).failed
    ensures ScanFiles(f, disk, some, window).delivered
         == InWindow(f, ScanFiles(f, disk, all, NO_WINDOW).delivered, window)
  {
    hide RecordCrcOk, RecvTs, HourlyFileName, InRange, IsHourlyName, HeaderOk, SlotsIn, ScanFiles, Less, TimesInRange;
    WindowedListing(f.prefix, disk.Keys, all, some, window);
    CompleteScan(f, disk, all, NO_WINDOW);
    CompleteScan(f, disk, some, window);
    NoWindowKeepsAll(f, AllSlots(f, disk, all));
    PruningLosesNothing(f, disk, all, window);
  }

  /** A sound, readable directory is delivered whole. */
  lemma CompleteScan(f: Format, disk: Disk, files: seq<string>, window: TimeWindow)
    requires Sound(f, Store(disk, NoFile)) && AllReadable(f, disk)
    requires forall n :: n in files ==> n in disk && IsHourlyName(f.prefix, n)
    ensures ScanFiles(f, disk, files, window) == Scan(InWindow(f, AllSlots(f, disk, files), window), false)
  {
    hide RecordCrcOk, RecvTs, IsHourlyName, HeaderOk, SlotsIn, ScanFiles, Sound;
    ScanDeliversPrefix(f, disk, files, window);
    SoundSlotsAreGood(f, disk, files);
    var slots := AllSlots(f, disk, files);
    AllGoodHead(f, slots);
    assert slots[..|slots|] == slots;
  }

  // ---------------------------------------------------------------------- damage

  lemma {:induction false} AllSlotsConcat(f: Format, disk: Disk, a: seq<string>, b: seq<string>)
    ensures AllSlots(f, disk, a + b) == AllSlots(f, disk, a) + AllSlots(f, disk, b)
  {
    hide FileSlots;
    if a == [] {
      assert a + b == b;
    } else {
      assert (a + b)[1..] == a[1..] + b;
      AllSlotsConcat(f, disk, a[1..], b);
    }
  }

  lemma {:induction false} AllSlotsFrame(f: Format, disk: Disk, other: Disk, files: seq<string>)
    requires forall n :: n in files ==> FileSlots(f, disk, n) == FileSlots(f, other, n)
    ensures AllSlots(f, disk, files) == AllSlots(f, other, files)
  {
    hide FileSlots;
    if files != [] {
      assert files[0] in files;
      AllSlotsFrame(f, disk, other, files[1..]);
    }
  }

  lemma FirstDamage(f: Format, good: seq<Record>, bad: Record, rest: seq<Record>)
    requires AreRecords(f, good) && IsRecord(f, bad) && AreRecords(f, rest)
    requires (forall i :: 0 <= i < |good| ==> RecordCrcOk(f, good[i])) && !RecordCrcOk(f, bad)
    ensures GoodHead(f, good + [bad] + rest) == |good|
  {
    hide RecordCrcOk;
    var all := good + [bad] + rest;
    assert all[|good|] == bad;
    assert forall i :: 0 <= i < |good| ==> all[i] == good[i];
    var k := GoodHead(f, all);
  }

  lemma ScanStopsAt(f: Format, disk: Disk, files: seq<string>, good: seq<Record>, bad: Record, rest: seq<Record>)
    requires forall n :: n in files ==> Readable(f, disk, n)
    requires AreRecords(f, good) && IsRecord(f, bad) && AreRecords(f, rest)
    requires (forall i :: 0 <= i < |good| ==> RecordCrcOk(f, good[i])) && !RecordCrcOk(f, bad)
    requires AllSlots(f, disk, files) == good + [bad] + rest
    ensures ScanFiles(f, disk, files, NO_WINDOW) == Scan(good, true)
  {
    hide RecordCrcOk, RecvTs, HeaderOk, ScanFiles, AllSlots;
    ScanDeliversPrefix(f, disk, files, NO_WINDOW);
    FirstDamage(f, good, bad, rest);
    assert (good + [bad] + rest)[..|good|] == good;
    NoWindowKeepsAll(f, good);
  }

  /** A file whose j-th slot was overwritten. */
  function Overwritten(f: Format, b: seq<byte>, j: nat, slot: Record): seq<byte>
    requires |b| >= HEADER && j < |Slots(f, Body(b))| && IsRecord(f, slot)
  {
    b[..HEADER] + (Flat(Slots(f, Body(b))[j := slot]) + Tail(f, Body(b)))
  }

  lemma OverwrittenFile(f: Format, b: seq<byte>, j: nat, slot: Record)
    requires HeaderOk(f, b) && j < |Slots(f, Body(b))| && IsRecord(f, slot)
    ensures HeaderOk(f, Overwritten(f, b, j, slot))
    ensures SlotsIn(f, Overwritten(f, b, j, slot)) == SlotsIn(f, b)[j := slot]
  {
    hide FromLe;
    var slots, t := Slots(f, Body(b))[j := slot], Tail(f, Body(b));
    var c := Overwritten(f, b, j, slot);
    assert c[..8] == b[..8] && c[8..12] == b[8..12] && c[12..16] == b[12..16];
    assert Body(c) == Flat(slots) + t;
    SlotsOfFlat(f, slots, t);
    NoSlotInTail(f, Body(b));
  }

  lemma {:induction false} NoSlotInTail(f: Format, body: seq<byte>)
    ensures Slots(f, Tail(f, body)) == []
    decreases |body|
  {
    if |body| >= f.size {
      NoSlotInTail(f, body[f.size..]);
    }
  }

  /**
   A burst of at most 32 bits in the payload of one stored record never goes unnoticed:
   the replay stops with an error right before that record.
   */
  lemma {:induction false} DamageStopsReplay(f: Format, disk: Disk, files: seq<string>, at: nat, j: nat, bad: Record, from: nat, width: nat)
    requires Sound(f, Store(disk, NoFile)) && AllReadable(f, disk)
    requires IsListing(files, f.prefix, disk.Keys, NO_WINDOW)
    requires at < |files| && j < |FileSlots(f, disk, files[at])|
    requires IsRecord(f, bad) && bad != FileSlots(f, disk, files[at])[j]
    requires CrcField(f, bad) == CrcField(f, FileSlots(f, disk, files[at])[j]) != 0
    requires width <= WIDTH
    requires DifferOnlyIn(MessageBits(WithCrc(f, FileSlots(f, disk, files[at])[j], 0)), MessageBits(WithCrc(f, bad, 0)), from, width)
    ensures |disk[files[at]]| >= HEADER
    ensures var damaged := disk[files[at] := Overwritten(f, disk[files[at]], j, bad)];
            ScanFiles(f, damaged, files, NO_WINDOW)
              == Scan(AllSlots(f, disk, files[..at]) + FileSlots(f, disk, files[at])[..j], true)
  {
    hide RecordCrcOk, RecvTs, IsHourlyName, HeaderOk, ScanFiles, CrcField, WithCrc, Less, DifferOnlyIn, MessageBits,
         Overwritten, AllSlots;
    var name := files[at];
    assert name in files;
    assert Readable(f, disk, name) && SoundFile(f, name, disk[name]);
    ReadableHasHeader(f, disk, name);
    var slots := FileSlots(f, disk, name);
    assert RecordCrcOk(f, slots[j]);
    PayloadBurstIsRejected(f, slots[j], bad, from, width);
    OverwrittenFile(f, disk[name], j, bad);
    var damaged := disk[name := Overwritten(f, disk[name], j, bad)];
    ReadableHasHeader(f, damaged, name);
    DamagedSlots(f, disk, damaged, files, at, j, bad);
    assert forall n :: n in files[..at] ==> n in files;
    SoundSlotsAreGood(f, disk, files[..at]);
    ScanStopsAt(f, damaged, files, AllSlots(f, disk, files[..at]) + slots[..j], bad,
                slots[j + 1..] + AllSlots(f, disk, files[at + 1..]));
  }

  lemma OneFile(f: Format, disk: Disk, name: string)
    ensures AllSlots(f, disk, [name]) == FileSlots(f, disk, name)
  {
    hide FileSlots;
    assert [name][1..] == [];
  }

  lemma DamagedSlots(f: Format, disk: Disk, damaged: Disk, files: seq<string>, at: nat, j: nat, bad: Record)
    requires Ascending(files) && at < |files| && j < |FileSlots(f, disk, files[at])| && IsRecord(f, bad)
    requires forall n :: n != files[at] ==> FileSlots(f, damaged, n) == FileSlots(f, disk, n)
    requires FileSlots(f, damaged, files[at]) == FileSlots(f, disk, files[at])[j := bad]
    ensures AllSlots(f, damaged, files)
         == (AllSlots(f, disk, files[..at]) + FileSlots(f, disk, files[at])[..j]) + [bad]
            + (FileSlots(f, disk, files[at])[j + 1..] + AllSlots(f, disk, files[at + 1..]))
  {
    hide FileSlots, Less, AllSlots;
    var name := files[at];
    LessIsTotal(name, name);
    forall n | n in files[..at] || n in files[at + 1..] ensures n != name {
    }
    assert files == files[..at] + ([name] + files[at + 1..]);
    AllSlotsConcat(f, damaged, files[..at], [name] + files[at + 1..]);
    AllSlotsConcat(f, damaged, [name], files[at + 1..]);
    OneFile(f, damaged, name);
    AllSlotsFrame(f, damaged, disk, files[..at]);
    AllSlotsFrame(f, damaged, disk, files[at + 1..]);
  }

  /** A repaired file reads back as the slots repair counted, without error, with a matching header. */
  lemma RepairedFileReads(f: Format, name: string, b: seq<byte>)
    requires HeaderOk(f, b)
    ensures var disk := map[name := Repaired(f, b)];
            var k := GoodCount(f, Body(b));
      && k <= |Slots(f, Body(b))|
      && ScanFiles(f, disk, [name], NO_WINDOW) == Scan(Slots(f, Body(b))[..k], false)
      && |disk[name]| >= HEADER && ClaimedCount(disk, [name]) == k % U64
  {
    hide RecordCrcOk, RecvTs, FromLe, ScanFiles, GoodCount, Repaired, HeaderCount;
    RepairedFile(f, b);
    GoodPrefixIsLongest(f, Body(b));
    var disk, slots := map[name := Repaired(f, b)], Slots(f, Body(b))[..GoodCount(f, Body(b))];
    ReadableHasHeader(f, disk, name);
    OneFile(f, disk, name);
    ScanDeliversPrefix(f, disk, [name], NO_WINDOW);
    AllGoodHead(f, slots);
    assert slots[..|slots|] == slots;
    NoWindowKeepsAll(f, slots);
    assert [name][..0] == [];
  }
}
