/**
 Reading a directory back, file by file and slot by slot:
 src/storage/binary_record_reader.h.
 */
module RecordReader {
  import opened Crc32
  import opened ByteCodec
  import opened RecordFormat
  import opened DataDirectory
  import opened RecordIntegrity
  import opened FileRoll
  import opened FileStore

  // --------------------------------------------------- what a reader has ahead of it

  /** The records still to be delivered, and whether reading ends in an error. */
  datatype Scan = Scan(delivered: seq<Record>, failed: bool)

  /** From the unread bytes of file i on: the reading loop as a recursion. */
  function ScanRest(f: Format, disk: Disk, files: seq<string>, i: nat, rest: seq<byte>, window: TimeWindow): (scan: Scan)
    requires i < |files|
    ensures AreRecords(f, scan.delivered)
    decreases |files| - i, |rest|
  {
    if |rest| >= f.size then
      var slot := rest[..f.size];
      if !RecordCrcOk(f, slot) then Scan([], true)
      else
        var next := ScanRest(f, disk, files, i, rest[f.size..], window);
        if window.Contains(RecvTs(f, slot)) then Scan([slot] + next.delivered, next.failed) else next
    else if i + 1 >= |files| then Scan([], false)
    else if !Readable(f, disk, files[i + 1]) then Scan([], true)
    else ScanRest(f, disk, files, i + 1, Body(disk[files[i + 1]]), window)
  }

  function ScanFiles(f: Format, disk: Disk, files: seq<string>, window: TimeWindow): (scan: Scan)
    ensures AreRecords(f, scan.delivered)
  {
    if files == [] then Scan([], false)
    else if !Readable(f, disk, files[0]) then Scan([], true)
    else ScanRest(f, disk, files, 0, Body(disk[files[0]]), window)
  }

  /** The sum of the counts the headers claim. */
  function ClaimedCount(disk: Disk, files: seq<string>): nat
    requires forall n :: n in files ==> n in disk && |disk[n]| >= HEADER
  {
    if files == [] then 0 else
      var last := |files| - 1;
      ClaimedCount(disk, files[..last]) + HeaderCount(disk[files[last]])
  }

  /** Opening succeeds: the window makes sense, there is something to read, every header is sound. */
  ghost predicate CanOpen(f: Format, disk: Disk, files: seq<string>, window: TimeWindow) {
    && window.Valid()
    && (files != [] || !window.Empty())
    && (forall n :: n in files ==> Readable(f, disk, n))
  }

  class BinaryRecordReader {
    const f: Format
    const dir: DataDir
    var isOpen: bool
    var rest: seq<byte>
    var files: seq<string>
    var fileIndex: nat
    var totalRecordCount: nat
    var readError: bool
    var window: TimeWindow
    var windowed: bool

    constructor (f: Format, dir: DataDir)
      ensures this.f == f && this.dir == dir
    {
      this.f, this.dir := f, dir;
      isOpen, rest, files, fileIndex := false, [], [], 0;
      totalRecordCount, readError, window, windowed := 0, false, NO_WINDOW, false;
    }

    ghost predicate Valid()
      reads this
    {
      isOpen ==> fileIndex < |files|
    }

    ghost function Ahead(): Scan
      reads this, dir
      requires Valid()
    {
      if isOpen then ScanRest(f, dir.files, files, fileIndex, rest, window) else Scan([], false)
    }

    method Close()
      modifies this
      ensures Valid() && !isOpen && files == [] && totalRecordCount == 0
      ensures window == NO_WINDOW && !windowed && readError == old(readError)
    {
      isOpen, rest, files, fileIndex := false, [], [], 0;
      totalRecordCount, window, windowed := 0, NO_WINDOW, false;
    }

    /** Start reading the given file behind its header. */
    method OpenIndex(index: nat) returns (ok: bool)
      modifies this`isOpen, this`rest
      ensures ok == (index < |files| && Readable(f, dir.files, files[index]))
      ensures isOpen == ok
      ensures ok ==> rest == Body(dir.files[files[index]])
    {
      isOpen := false;
      if index >= |files| {
        return false;
      }
      var path := files[index];
      if path !in dir.files || !HeaderOk(f, dir.files[path]) {
        return false;
      }
      isOpen, rest := true, Body(dir.files[path]);
      return true;
    }

    /** Check every header and add up the counts they claim. */
    method ProbeHeaders() returns (ok: bool)
      modifies this`totalRecordCount
      requires totalRecordCount == 0
      ensures ok == (forall n :: n in files ==> Readable(f, dir.files, n))
      ensures ok ==> totalRecordCount == ClaimedCount(dir.files, files) % U64
    {
      for i := 0 to |files|
        invariant forall n :: n in files[..i] ==> Readable(f, dir.files, n)
        invariant totalRecordCount == ClaimedCount(dir.files, files[..i]) % U64
      {
        if files[i] !in dir.files || !HeaderOk(f, dir.files[files[i]]) {
          assert files[i] in files;
          return false;
        }
        assert files[..i + 1] == files[..i] + [files[i]];
        assert files[..i + 1][..i] == files[..i];
        AddModulo(ClaimedCount(dir.files, files[..i]), HeaderCount(dir.files[files[i]]));
        totalRecordCount := (totalRecordCount + HeaderCount(dir.files[files[i]])) % U64;
      }
      assert files[..|files|] == files;
      return true;
    }

    method Open(window: TimeWindow) returns (ok: bool, ghost names: seq<string>)
      modifies this
      ensures Valid() && !readError
      ensures IsListing(names, f.prefix, dir.files.Keys, window)
      ensures ok == CanOpen(f, dir.files, names, window)
      ensures ok ==> Ahead() == ScanFiles(f, dir.files, names, window)
      ensures ok ==> totalRecordCount == ClaimedCount(dir.files, names) % U64
      ensures ok ==> windowed == !window.Empty()
    {
      hide ScanRest, FromLe;
      Close();
      readError := false;
      if !window.Valid() {
        names := ListingOf(f.prefix, dir.files.Keys, window);
        return false, names;
      }
      this.window, windowed := window, !window.Empty();
      files := ListRecordFiles(dir, f.prefix, window);
      names := files;
      if files == [] {
        return windowed, names;
      }
      var sound := ProbeHeaders();
      if !sound {
        files := [];
        return false, names;
      }
      assert names[0] in names;
      fileIndex := 0;
      ok := OpenIndex(0);
    }

    /** The next record of the window, skipping torn tails; false at the end or at damage. */
    method ReadNext() returns (ok: bool, record: Record)
      requires Valid()
      modifies this
      ensures Valid()
      ensures ok == (old(Ahead()).delivered != [])
      ensures ok ==> record == old(Ahead()).delivered[0]
      ensures ok ==> Ahead() == Scan(old(Ahead()).delivered[1..], old(Ahead()).failed) && readError == old(readError)
      ensures !ok ==> readError == (old(readError) || old(Ahead()).failed)
      ensures totalRecordCount == old(totalRecordCount) && windowed == old(windowed)
    {
      record := [];
      while isOpen
        invariant Valid() && Ahead() == old(Ahead()) && readError == old(readError)
        invariant files == old(files) && window == old(window)
        invariant totalRecordCount == old(totalRecordCount) && windowed == old(windowed)
        decreases |files| - fileIndex, |rest|
      {
        if |rest| >= f.size {
          record := rest[..f.size];
          rest := rest[f.size..];
          if !RecordCrcOk(f, record) {
            readError := true;
            return false, record;
          }
          if !window.Contains(RecvTs(f, record)) {
            continue;
          }
          return true, record;
        }
        fileIndex := fileIndex + 1;
        if fileIndex >= |files| {
          isOpen := false;
          return false, record;
        }
        var more := OpenIndex(fileIndex);
        if !more {
          readError := true;
          return false, record;
        }
      }
      return false, record;
    }
  }

  lemma AddModulo(a: nat, b: nat)
    ensures (a % U64 + b) % U64 == (a + b) % U64
  {
  }
}
