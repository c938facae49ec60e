/**
 Record layouts, CRC stamping and checking, and the fixed-slot file body of
 src/storage/record_integrity.h and src/storage/trade_file_format.h.
 Records are opaque bytes except for recv_ts_us and crc32.
 */
module ByteCodec {
  import opened Crc32

  const U64: nat := 0x1_0000_0000_0000_0000
  const I64_LIMIT: nat := 0x8000_0000_0000_0000

  function Pow256(k: nat): (p: nat)
    ensures p > 0
  {
    if k == 0 then 1 else 256 * Pow256(k - 1)
  }

  /** Little-endian, truncated to k bytes as an unsigned store is. */
  function ToLe(n: nat, k: nat): (bs: seq<byte>)
    ensures |bs| == k
    decreases k
  {
    if k == 0 then [] else [(n % 256) as byte] + ToLe(n / 256, k - 1)
  }

  function FromLe(bs: seq<byte>): nat {
    if bs == [] then 0 else (bs[0] as int) + 256 * FromLe(bs[1..])
  }

  lemma BackAndForth(b: byte)
    ensures (b as int) as byte == b
  {
  }

  lemma NextByte(b: byte)
    requires b < 255
    ensures (b + 1) as int == b as int + 1
  {
  }

  lemma {:induction false} ByteWithValue(x: nat) returns (b: byte)
    requires x < 256
    ensures b as int == x
  {
    if x == 0 {
      b := 0;
    } else {
      b := ByteWithValue(x - 1);
      NextByte(b);
      b := b + 1;
    }
  }

  lemma ByteOfInt(x: nat)
    requires x < 256
    ensures (x as byte) as int == x
  {
    var b := ByteWithValue(x);
    BackAndForth(b);
  }

  lemma ModSplit(n: nat, p: nat)
    requires p > 0
    ensures n % (256 * p) == n % 256 + 256 * ((n / 256) % p)
  {
    var q := n / 256;
    var r := q % p;
    assert q == p * (q / p) + r;
    assert n == (256 * p) * (q / p) + (n % 256 + 256 * r);
    ModUnique(n, 256 * p, q / p, n % 256 + 256 * r);
  }

  lemma ModUnique(n: nat, m: nat, q: nat, r: nat)
    requires m > 0 && n == m * q + r && r < m
    ensures n % m == r
  {
    var d := n / m - q;
    assert m * d == r - n % m by {
      assert n == m * (n / m) + n % m;
      assert m * d == m * (n / m) - m * q;
    }
    if d > 0 {
      MulAtLeast(m, d);
    } else if d < 0 {
      assert m * d == -(m * -d);
      MulAtLeast(m, -d);
    }
  }

  lemma MulAtLeast(m: nat, d: nat)
    requires d > 0
    ensures m * d >= m
  {
    assert m * d == m + m * (d - 1);
  }

  lemma {:induction false} LeRoundTrip(n: nat, k: nat)
    ensures FromLe(ToLe(n, k)) == n % Pow256(k)
    decreases k
  {
    if k > 0 {
      ByteOfInt(n % 256);
      var bs := ToLe(n, k);
      assert bs[1..] == ToLe(n / 256, k - 1);
      LeRoundTrip(n / 256, k - 1);
      ModSplit(n, Pow256(k - 1));
    }
  }

  lemma {:induction false} LeInverse(bs: seq<byte>)
    ensures FromLe(bs) < Pow256(|bs|) && ToLe(FromLe(bs), |bs|) == bs
  {
    if bs != [] {
      var rest := bs[1..];
      LeInverse(rest);
      var low := bs[0] as int;
      assert FromLe(bs) % 256 == low && FromLe(bs) / 256 == FromLe(rest);
      BackAndForth(bs[0]);
      assert bs == [bs[0]] + rest;
    }
  }

  lemma DivideTwice(n: nat, a: nat, b: nat)
    requires a > 0 && b > 0
    ensures n / a / b == n / (a * b)
  {
    DivMod(n, a);
    DivMod(n / a, b);
    Fits(a, b, n / a % b, n % a);
    Nested(n, a, b, n / a, n % a, n / a / b, n / a % b);
  }

  lemma DivMod(n: nat, a: nat)
    requires a > 0
    ensures n == a * (n / a) + n % a && n % a < a
  {
  }

  lemma Nested(n: nat, a: nat, b: nat, u: nat, v: nat, q: nat, r: nat)
    requires n == a * u + v && u == b * q + r && a * r + v < a * b
    ensures a * b > 0 && n / (a * b) == q
  {
    Expand(a, b, q, r);
    assert a * r >= 0 && a * u == a * (b * q + r);
    var product, rest := a * b, a * r + v;
    assert n == product * q + rest;
    QuotientUnique(n, product, q, rest);
  }

  lemma Expand(a: nat, b: nat, q: nat, r: nat)
    ensures a * (b * q + r) == (a * b) * q + a * r
  {
    assert a * (b * q + r) == a * (b * q) + a * r;
    assert a * (b * q) == (a * b) * q;
  }

  lemma Fits(a: nat, b: nat, r: nat, v: nat)
    requires v < a && r < b
    ensures a * r + v < a * b
  {
    assert a * b == a * r + a * (b - r);
    MulAtLeast(a, b - r);
  }

  lemma QuotientUnique(n: nat, m: nat, q: nat, r: nat)
    requires m > 0 && n == m * q + r && r < m
    ensures n / m == q
  {
    ModUnique(n, m, q, r);
    assert m * (n / m) == m * q;
    SameFactor(m, n / m, q);
  }

  lemma SameFactor(m: nat, p: nat, q: nat)
    requires m > 0 && m * p == m * q
    ensures p == q
  {
    if p < q {
      assert m * q == m * p + m * (q - p);
      MulAtLeast(m, q - p);
    } else if q < p {
      assert m * p == m * q + m * (p - q);
      MulAtLeast(m, p - q);
    }
  }

  /** The byte at position i is the digit of weight 256^i: little-endian. */
  lemma {:induction false} LittleEndian(n: nat, k: nat, i: nat)
    requires i < k
    ensures ToLe(n, k)[i] as int == n / Pow256(i) % 256
    decreases i
  {
    if i == 0 {
      ByteOfInt(n % 256);
    } else {
      LittleEndian(n / 256, k - 1, i - 1);
      DivideTwice(n, 256, Pow256(i - 1));
    }
  }
}

module RecordFormat {
  import opened Crc32
  import opened ByteCodec

  /** Where a record type keeps its receive time and its CRC, and how its files are marked. */
  datatype Layout = Layout(prefix: string, magic: seq<byte>, size: nat, tsAt: nat, crcAt: nat) {
    predicate Valid() {
      && |magic| == 8
      && size < 0x1_0000_0000
      && tsAt + 8 <= size && crcAt + 4 <= size
      && (tsAt + 8 <= crcAt || crcAt + 4 <= tsAt)
    }
  }

  type Format = f: Layout | f.Valid() witness Layout("", [0, 0, 0, 0, 0, 0, 0, 0], 12, 0, 8)

  const TRADE: Format := Layout("trades", [0x4D, 0x44, 0x53, 0x54, 0x52, 0x44, 0x31, 0x00], 64, 8, 60)
  const ORDER_BOOK: Format := Layout("orderbooks", [0x4D, 0x44, 0x53, 0x4F, 0x42, 0x4B, 0x31, 0x00], 688, 8, 680)

  type Record = seq<byte>

  predicate IsRecord(f: Format, r: Record) {
    |r| == f.size
  }

  predicate AreRecords(f: Format, rs: seq<Record>) {
    forall i :: 0 <= i < |rs| ==> IsRecord(f, rs[i])
  }

  const STAMP: nat := 8

  /** recv_ts_us, a two's-complement 64-bit field. */
  function RecvTs(f: Format, r: Record): int
    requires IsRecord(f, r)
  {
    var u := FromLe(r[f.tsAt..f.tsAt + STAMP]);
    if u >= I64_LIMIT then u - U64 else u
  }

  /** It is the value whose little-endian bytes stand there. */
  lemma ReceiveTimeField(f: Format, r: Record, n: int)
    requires IsRecord(f, r) && -(I64_LIMIT as int) <= n < I64_LIMIT
    requires r[f.tsAt..f.tsAt + 8] == ToLe(if n < 0 then n + U64 else n, 8)
    ensures RecvTs(f, r) == n
  {
    hide FromLe, ToLe;
    CountRoundTrip(if n < 0 then n + U64 else n);
  }

  /** The record types as the structs declare them: the size of each field, in order. */
  const TRADE_FIELDS: seq<(string, nat)> := [
    ("exchange_ts_us", 8), ("recv_ts_us", 8), ("trade_id", 8), ("price", 8), ("quantity", 8),
    ("symbol", 16), ("is_buyer_maker", 1), ("padding", 3), ("crc32", 4)]
  const ORDER_BOOK_FIELDS: seq<(string, nat)> := [
    ("exchange_ts_us", 8), ("recv_ts_us", 8), ("last_update_id", 8), ("symbol", 16),
    ("bids", 20 * 16), ("asks", 20 * 16), ("crc32", 4), ("padding", 4)]

  function Size(fields: seq<(string, nat)>): nat {
    if fields == [] then 0 else fields[0].1 + Size(fields[1..])
  }

  /** Where the field of that name begins. */
  function Offset(fields: seq<(string, nat)>, name: string): nat {
    if fields == [] || fields[0].0 == name then 0 else fields[0].1 + Offset(fields[1..], name)
  }

  lemma LayoutsFollowTheStructs()
    ensures TRADE.size == Size(TRADE_FIELDS) && ORDER_BOOK.size == Size(ORDER_BOOK_FIELDS)
    ensures TRADE.tsAt == Offset(TRADE_FIELDS, "recv_ts_us") && TRADE.crcAt == Offset(TRADE_FIELDS, "crc32")
    ensures ORDER_BOOK.tsAt == Offset(ORDER_BOOK_FIELDS, "recv_ts_us")
    ensures ORDER_BOOK.crcAt == Offset(ORDER_BOOK_FIELDS, "crc32")
  {
    TradeSize(TRADE_FIELDS);
    TradeOffsets(TRADE_FIELDS);
    OrderBookOffsets(ORDER_BOOK_FIELDS);
  }

  lemma TradeSize(fs: seq<(string, nat)>)
    requires fs == TRADE_FIELDS
    ensures Size(fs) == 64
  {
    assert Size(fs[8..]) == 4 && Size(fs[7..]) == 7 && Size(fs[6..]) == 8 && Size(fs[5..]) == 24 && Size(fs[4..]) == 32;
    assert Size(fs[3..]) == 40 && Size(fs[2..]) == 48 && Size(fs[1..]) == 56;
  }

  lemma TradeOffsets(fs: seq<(string, nat)>)
    requires fs == TRADE_FIELDS
    ensures Offset(fs, "recv_ts_us") == 8 && Offset(fs, "crc32") == 60
  {
    assert Offset(fs[8..], "crc32") == 0 && Offset(fs[7..], "crc32") == 3 && Offset(fs[6..], "crc32") == 4;
    assert Offset(fs[5..], "crc32") == 20 && Offset(fs[4..], "crc32") == 28 && Offset(fs[3..], "crc32") == 36;
    assert Offset(fs[2..], "crc32") == 44 && Offset(fs[1..], "crc32") == 52;
    assert Offset(fs[1..], "recv_ts_us") == 0;
  }

  lemma OrderBookOffsets(fs: seq<(string, nat)>)
    requires fs == ORDER_BOOK_FIELDS
    ensures Size(fs) == 688 && Offset(fs, "recv_ts_us") == 8 && Offset(fs, "crc32") == 680
  {
    assert Size(fs[7..]) == 4 && Size(fs[6..]) == 8 && Size(fs[5..]) == 328 && Size(fs[4..]) == 648;
    assert Size(fs[3..]) == 664 && Size(fs[2..]) == 672 && Size(fs[1..]) == 680;
    assert Offset(fs[6..], "crc32") == 0 && Offset(fs[5..], "crc32") == 320 && Offset(fs[4..], "crc32") == 640;
    assert Offset(fs[3..], "crc32") == 656 && Offset(fs[2..], "crc32") == 664 && Offset(fs[1..], "crc32") == 672;
    assert Offset(fs[1..], "recv_ts_us") == 0;
  }

  // ----------------------------------------------------------- the crc32 field

  function CrcBytes(c: bv32): (bs: seq<byte>)
    ensures |bs| == 4
  {
    [(c & 0xFF) as byte, ((c >> 8) & 0xFF) as byte, ((c >> 16) & 0xFF) as byte, (c >> 24) as byte]
  }

  function CrcOfBytes(bs: seq<byte>): bv32
    requires |bs| == 4
  {
    (bs[0] as bv32) | ((bs[1] as bv32) << 8) | ((bs[2] as bv32) << 16) | ((bs[3] as bv32) << 24)
  }

  lemma CrcBytesRoundTrip(c: bv32)
    ensures CrcOfBytes(CrcBytes(c)) == c
  {
  }

  lemma BytesOfCrc(a: seq<byte>)
    requires |a| == 4
    ensures CrcBytes(CrcOfBytes(a)) == a
  {
  }

  function CrcField(f: Format, r: Record): bv32
    requires IsRecord(f, r)
  {
    CrcOfBytes(r[f.crcAt..f.crcAt + 4])
  }

  function WithCrc(f: Format, r: Record, c: bv32): (s: Record)
    requires IsRecord(f, r)
    ensures IsRecord(f, s)
  {
    r[..f.crcAt] + CrcBytes(c) + r[f.crcAt + 4..]
  }

  // ------------------------------------------------------------ the file header

  const HEADER: nat := 24
  const COUNT_AT: nat := 16
  const COUNT_BYTES: nat := 8
  const WORD: nat := 4
  const VERSION: nat := 2

  function Header(f: Format, count: nat): (h: seq<byte>)
    ensures |h| == HEADER
  {
    f.magic + ToLe(VERSION, WORD) + ToLe(f.size, WORD) + ToLe(count, COUNT_BYTES)
  }

  predicate HeaderOk(f: Format, b: seq<byte>) {
    && |b| >= HEADER
    && b[..8] == f.magic
    && FromLe(b[8..12]) == VERSION
    && FromLe(b[12..16]) == f.size
  }

  function HeaderCount(b: seq<byte>): nat
    requires |b| >= HEADER
  {
    FromLe(b[COUNT_AT..HEADER])
  }

  function WithCount(b: seq<byte>, n: nat): (c: seq<byte>)
    requires |b| >= HEADER
    ensures |c| == |b|
  {
    b[..COUNT_AT] + ToLe(n, COUNT_BYTES) + b[HEADER..]
  }

  function Body(b: seq<byte>): seq<byte>
    requires |b| >= HEADER
  {
    b[HEADER..]
  }

  lemma WordRoundTrip(n: nat)
    requires n < 0x1_0000_0000
    ensures FromLe(ToLe(n, WORD)) == n
  {
    LeRoundTrip(n, WORD);
    assert Pow256(WORD) == 0x1_0000_0000;
  }

  lemma HeaderIsOk(f: Format, count: nat, rest: seq<byte>)
    ensures HeaderOk(f, Header(f, count) + rest)
    ensures HeaderCount(Header(f, count) + rest) == count % U64
    ensures Body(Header(f, count) + rest) == rest
  {
    var b := Header(f, count) + rest;
    assert b[..8] == f.magic && b[8..12] == ToLe(VERSION, WORD) && b[12..16] == ToLe(f.size, WORD);
    assert b[COUNT_AT..HEADER] == ToLe(count, COUNT_BYTES);
    WordRoundTrip(VERSION);
    WordRoundTrip(f.size);
    CountRoundTrip(count);
  }

  lemma CountRoundTrip(n: nat)
    ensures FromLe(ToLe(n, COUNT_BYTES)) == n % U64
  {
    LeRoundTrip(n, COUNT_BYTES);
    assert Pow256(COUNT_BYTES) == U64;
  }

  /** Rewriting the count touches nothing else. */
  lemma WithCountKeeps(f: Format, b: seq<byte>, n: nat)
    requires |b| >= HEADER
    ensures HeaderOk(f, WithCount(b, n)) == HeaderOk(f, b)
    ensures HeaderCount(WithCount(b, n)) == n % U64
    ensures Body(WithCount(b, n)) == Body(b)
  {
    var c := WithCount(b, n);
    assert c[..8] == b[..8] && c[8..12] == b[8..12] && c[12..16] == b[12..16];
    assert c[COUNT_AT..HEADER] == ToLe(n, COUNT_BYTES);
    CountRoundTrip(n);
  }

  /** The check accepts exactly the headers that are written, with any count. */
  lemma HeaderOkExactlyWhen(f: Format, b: seq<byte>)
    ensures HeaderOk(f, b) <==> |b| >= HEADER && exists count: nat :: b[..HEADER] == Header(f, count)
  {
    hide HeaderOk, Header;
    if HeaderOk(f, b) {
      IsItsHeader(f, b);
    }
    if |b| >= HEADER {
      forall count: nat | b[..HEADER] == Header(f, count) ensures HeaderOk(f, b) {
        HeaderIsOk(f, count, b[HEADER..]);
        assert b == Header(f, count) + b[HEADER..];
      }
    }
  }

  lemma IsItsHeader(f: Format, b: seq<byte>)
    requires HeaderOk(f, b)
    ensures |b| >= HEADER && b[..HEADER] == Header(f, HeaderCount(b))
  {
    hide ToLe, FromLe;
    LeInverse(b[8..12]);
    LeInverse(b[12..16]);
    LeInverse(b[COUNT_AT..HEADER]);
    assert b[..HEADER] == b[..8] + b[8..12] + b[12..16] + b[COUNT_AT..HEADER];
  }

  /** The first bytes of the two kinds of file, as they stand on disk. */
  lemma FreshHeaders()
    ensures Header(TRADE, 0) == [0x4D, 0x44, 0x53, 0x54, 0x52, 0x44, 0x31, 0, 2, 0, 0, 0, 64, 0, 0, 0, 0, 0, 0, 0, 0, 0, 0, 0]
    ensures Header(ORDER_BOOK, 0)
         == [0x4D, 0x44, 0x53, 0x4F, 0x42, 0x4B, 0x31, 0, 2, 0, 0, 0, 0xB0, 2, 0, 0, 0, 0, 0, 0, 0, 0, 0, 0]
  {
    hide ToLe;
    SmallWord(VERSION, 2, 0);
    SmallWord(64, 64, 0);
    SmallWord(688, 0xB0, 2);
    ZeroBytes(COUNT_BYTES);
  }

  lemma SmallWord(n: nat, low: byte, high: byte)
    requires n == low as int + 256 * high as int
    ensures ToLe(n, WORD) == [low, high, 0, 0]
  {
    hide ToLe;
    var bs: seq<byte> := [low, high, 0, 0];
    LeInverse(bs);
    assert bs[1..] == [high, 0, 0] && bs[1..][1..] == [0, 0] && bs[1..][1..][1..] == [0];
    assert FromLe([0]) == 0 && FromLe([0, 0]) == 0 && FromLe([high, 0, 0]) == high as int;
  }

  lemma {:induction false} ZeroBytes(k: nat)
    ensures ToLe(0, k) == seq(k, _ => 0 as byte)
  {
    if k > 0 {
      ZeroBytes(k - 1);
    }
  }

  // -------------------------------------------------------------- slots of a body

  /** The complete slots of a body, in order. */
  function Slots(f: Format, body: seq<byte>): (rs: seq<Record>)
    ensures AreRecords(f, rs)
    decreases |body|
  {
    if |body| < f.size then [] else [body[..f.size]] + Slots(f, body[f.size..])
  }

  /** What is left after the last complete slot: a torn record, or nothing. */
  function Tail(f: Format, body: seq<byte>): (t: seq<byte>)
    ensures |t| < f.size
    decreases |body|
  {
    if |body| < f.size then body else Tail(f, body[f.size..])
  }

  function Flat(rs: seq<Record>): seq<byte> {
    if rs == [] then [] else rs[0] + Flat(rs[1..])
  }

  lemma {:induction false} SlotsOfFlat(f: Format, rs: seq<Record>, t: seq<byte>)
    requires AreRecords(f, rs)
    ensures Slots(f, Flat(rs) + t) == rs + Slots(f, t) && Tail(f, Flat(rs) + t) == Tail(f, t)
  {
    if rs == [] {
      assert Flat(rs) + t == t;
    } else {
      var b := Flat(rs) + t;
      assert b[..f.size] == rs[0] && b[f.size..] == Flat(rs[1..]) + t;
      SlotsOfFlat(f, rs[1..], t);
    }
  }

  lemma {:induction false} FlatOfSlots(f: Format, body: seq<byte>)
    ensures Flat(Slots(f, body)) + Tail(f, body) == body
    decreases |body|
  {
    if |body| >= f.size {
      FlatOfSlots(f, body[f.size..]);
      assert Slots(f, body)[1..] == Slots(f, body[f.size..]);
      assert body == body[..f.size] + body[f.size..];
    }
  }

  /** Appending bytes never changes the slots already complete. */
  lemma SlotsOfConcat(f: Format, a: seq<byte>, b: seq<byte>)
    ensures Slots(f, a + b) == Slots(f, a) + Slots(f, Tail(f, a) + b)
    ensures Tail(f, a + b) == Tail(f, Tail(f, a) + b)
  {
    FlatOfSlots(f, a);
    assert a + b == Flat(Slots(f, a)) + (Tail(f, a) + b);
    SlotsOfFlat(f, Slots(f, a), Tail(f, a) + b);
  }

  lemma {:induction false} FlatLength(f: Format, rs: seq<Record>)
    requires AreRecords(f, rs)
    ensures |Flat(rs)| == |rs| * f.size
  {
    if rs != [] {
      FlatLength(f, rs[1..]);
    }
  }
}

/** The data directory: what the file system holds, by file name. */
module DataDirectory {
  import opened Crc32

  type Disk = map<string, seq<byte>>

  class DataDir {
    var files: Disk

    constructor (initial: Disk)
      ensures files == initial
    {
      files := initial;
    }
  }
}

module RecordIntegrity {
  import opened Crc32
  import opened CrcTheory
  import opened ByteCodec
  import opened RecordFormat
  import opened DataDirectory

  // ------------------------------------------------------- stamping and checking

  /** The CRC covers the whole record, its own field read as zero. */
  function RecordCrc(f: Format, r: Record): bv32
    requires IsRecord(f, r)
  {
    Crc(WithCrc(f, r, 0))
  }

  function Stamp(f: Format, r: Record): (s: Record)
    requires IsRecord(f, r)
    ensures IsRecord(f, s)
  {
    WithCrc(f, r, RecordCrc(f, r))
  }

  predicate RecordCrcOk(f: Format, r: Record)
    requires IsRecord(f, r)
  {
    CrcField(f, r) == 0 || CrcField(f, r) == RecordCrc(f, r)
  }

  method ComputeRecordCrc(f: Format, record: Record) returns (crc: bv32)
    requires IsRecord(f, record)
    ensures crc == RecordCrc(f, record)
  {
    var tmp := WithCrc(f, record, 0);
    crc := Crc32Ieee(tmp);
  }

  method StampRecordCrc(f: Format, record: array<byte>)
    requires IsRecord(f, record[..])
    modifies record
    ensures record[..] == Stamp(f, old(record[..]))
  {
    var crc := ComputeRecordCrc(f, record[..]);
    var bytes := CrcBytes(crc);
    var at := f.crcAt;
    record[at], record[at + 1], record[at + 2], record[at + 3] := bytes[0], bytes[1], bytes[2], bytes[3];
  }

  lemma WithCrcFields(f: Format, r: Record, c: bv32)
    requires IsRecord(f, r)
    ensures CrcField(f, WithCrc(f, r, c)) == c
    ensures RecvTs(f, WithCrc(f, r, c)) == RecvTs(f, r)
    ensures forall d :: WithCrc(f, WithCrc(f, r, c), d) == WithCrc(f, r, d)
  {
    hide CrcBytes, CrcOfBytes;
    var s := WithCrc(f, r, c);
    assert s[f.crcAt..f.crcAt + 4] == CrcBytes(c);
    CrcBytesRoundTrip(c);
    assert s[f.tsAt..f.tsAt + STAMP] == r[f.tsAt..f.tsAt + STAMP];
    forall d ensures WithCrc(f, s, d) == WithCrc(f, r, d) {
      assert s[..f.crcAt] == r[..f.crcAt] && s[f.crcAt + 4..] == r[f.crcAt + 4..];
    }
  }

  /** The four bytes of the field are the register's coefficients, in the order of the message bits. */
  lemma FieldIsLittleEndian(c: bv32)
    ensures MessageBits(CrcBytes(c)) == Coefficients(c)
  {
    hide Bits, Octet, ByteBits, MessageBits;
    FourOctets(c);
    LowOctet(c);
    LowOctet(c >> 8);
    LowOctet(c >> 16);
    LowOctet(c >> 24);
    HighByte(c);
    var b := CrcBytes(c);
    FourBytes(b[0], b[1], b[2], b[3]);
  }

  lemma HighByte(c: bv32)
    ensures (c >> 24) as byte == ((c >> 24) & 0xFF) as byte
  {
  }

  lemma LowOctet(c: bv32)
    ensures ByteBits((c & 0xFF) as byte) == Octet(c)
  {
    hide ByteBits;
    ByteBitsAre((c & 0xFF) as byte);
    SameOctet(c, ((c & 0xFF) as byte) as bv32);
  }

  lemma SameOctet(c: bv32, d: bv32)
    requires d == c & 0xFF
    ensures Octet(d) == Octet(c)
  {
  }

  lemma FourBytes(b0: byte, b1: byte, b2: byte, b3: byte)
    ensures MessageBits([b0, b1, b2, b3]) == ByteBits(b0) + (ByteBits(b1) + (ByteBits(b2) + ByteBits(b3)))
  {
    hide ByteBits;
    assert [b0, b1, b2, b3][1..] == [b1, b2, b3] && [b1, b2, b3][1..] == [b2, b3];
    assert [b2, b3][1..] == [b3] && [b3][1..] == [];
    assert MessageBits([b3]) == ByteBits(b3);
    assert MessageBits([b2, b3]) == ByteBits(b2) + ByteBits(b3);
    assert MessageBits([b1, b2, b3]) == ByteBits(b1) + (ByteBits(b2) + ByteBits(b3));
  }

  /**
   What stamping stores, down to the bits: the complemented bits of the four bytes at the
   field are the remainder of the record's bits, the field read as zero, modulo the
   generator.  The rest of the record is untouched.
   */
  lemma StampIsRemainder(f: Format, r: Record)
    requires IsRecord(f, r)
    ensures var s := Stamp(f, r);
      && s[..f.crcAt] == r[..f.crcAt] && s[f.crcAt + 4..] == r[f.crcAt + 4..]
      && |MessageBits(s[f.crcAt..f.crcAt + 4])| == WIDTH
      && var bits := MessageBits(r[..f.crcAt] + [0, 0, 0, 0] + r[f.crcAt + 4..]);
         var field := MessageBits(s[f.crcAt..f.crcAt + 4]);
         exists q :: Divides(bits, Complement(Zeros(WIDTH)), q, Complement(field))
  {
    hide MessageBits, Coefficients, Divides, Crc;
    var zeroed := WithCrc(f, r, 0);
    assert CrcBytes(0) == [0, 0, 0, 0];
    assert zeroed == r[..f.crcAt] + [0, 0, 0, 0] + r[f.crcAt + 4..];
    var c := Crc(zeroed);
    CrcIsPolynomialRemainder(zeroed, c);
    FieldIsLittleEndian(c);
    assert Stamp(f, r)[f.crcAt..f.crcAt + 4] == CrcBytes(c);
    CoefficientsWidth(c);
  }

  lemma CoefficientsWidth(c: bv32)
    ensures |Coefficients(c)| == WIDTH
  {
  }

  /** Two records that differ at most in their crc32 field. */
  predicate SamePayload(f: Format, r: Record, s: Record)
    requires IsRecord(f, r) && IsRecord(f, s)
  {
    WithCrc(f, r, 0) == WithCrc(f, s, 0)
  }

  lemma WithOwnCrc(f: Format, r: Record)
    requires IsRecord(f, r)
    ensures WithCrc(f, r, CrcField(f, r)) == r
  {
    hide CrcBytes, CrcOfBytes;
    BytesOfCrc(r[f.crcAt..f.crcAt + 4]);
    assert r == r[..f.crcAt] + r[f.crcAt..f.crcAt + 4] + r[f.crcAt + 4..];
  }

  lemma SamePayloadAndCrc(f: Format, r: Record, s: Record)
    requires IsRecord(f, r) && IsRecord(f, s)
    requires SamePayload(f, r, s) && CrcField(f, r) == CrcField(f, s)
    ensures r == s
  {
    hide CrcField, WithCrc;
    WithOwnCrc(f, r);
    WithOwnCrc(f, s);
    WithCrcFields(f, r, 0);
    WithCrcFields(f, s, 0);
    assert WithCrc(f, WithCrc(f, r, 0), CrcField(f, r)) == WithCrc(f, WithCrc(f, s, 0), CrcField(f, s));
  }

  /** A stamped record passes the check, and only the crc32 field was touched. */
  lemma StampIsAccepted(f: Format, r: Record)
    requires IsRecord(f, r)
    ensures RecordCrcOk(f, Stamp(f, r))
    ensures SamePayload(f, Stamp(f, r), r)
    ensures RecvTs(f, Stamp(f, r)) == RecvTs(f, r)
    ensures Stamp(f, Stamp(f, r)) == Stamp(f, r)
  {
    hide CrcField, WithCrc, Crc;
    WithCrcFields(f, r, RecordCrc(f, r));
  }

  /**
   A stamped record with a nonzero crc32 whose payload is damaged inside one window
   of at most 32 bits is rejected.
   */
  lemma {:induction false} PayloadBurstIsRejected(f: Format, r: Record, s: Record, from: nat, width: nat)
    requires IsRecord(f, r) && IsRecord(f, s) && r != s
    requires RecordCrcOk(f, r) && CrcField(f, r) != 0
    requires CrcField(f, s) == CrcField(f, r)
    requires width <= WIDTH
    requires DifferOnlyIn(MessageBits(WithCrc(f, r, 0)), MessageBits(WithCrc(f, s, 0)), from, width)
    ensures !RecordCrcOk(f, s)
  {
    hide CrcField, WithCrc, Crc, MessageBits, DifferOnlyIn;
    if SamePayload(f, r, s) {
      SamePayloadAndCrc(f, r, s);
    } else {
      BurstIsDetected(WithCrc(f, r, 0), WithCrc(f, s, 0), from, width);
    }
  }

  /** Damage to the crc32 field alone slips through exactly when it leaves zero. */
  lemma CrcFieldDamage(f: Format, r: Record, s: Record)
    requires IsRecord(f, r) && IsRecord(f, s) && SamePayload(f, r, s)
    requires RecordCrcOk(f, r) && CrcField(f, r) != 0
    ensures RecordCrcOk(f, s) <==> s == r || CrcField(f, s) == 0
  {
    hide CrcField, WithCrc, Crc;
    if CrcField(f, s) == CrcField(f, r) {
      SamePayloadAndCrc(f, r, s);
    }
  }

  // ------------------------------------------------------------------- repair

  /** How many leading slots are complete and acceptable. */
  function GoodCount(f: Format, body: seq<byte>): nat
    decreases |body|
  {
    if |body| >= f.size && RecordCrcOk(f, body[..f.size]) then 1 + GoodCount(f, body[f.size..]) else 0
  }

  /** The bytes they occupy. */
  function GoodLength(f: Format, body: seq<byte>): (n: nat)
    ensures n <= |body|
    decreases |body|
  {
    if |body| >= f.size && RecordCrcOk(f, body[..f.size]) then f.size + GoodLength(f, body[f.size..]) else 0
  }

  /** The file cut back to its good slots, its count not yet rewritten. */
  function CutBack(f: Format, b: seq<byte>): (c: seq<byte>)
    requires |b| >= HEADER
    ensures HEADER <= |c| <= |b|
  {
    b[..HEADER + GoodLength(f, Body(b))]
  }

  /** The file after a successful repair. */
  function Repaired(f: Format, b: seq<byte>): seq<byte>
    requires |b| >= HEADER
  {
    WithCount(CutBack(f, b), GoodCount(f, Body(b)))
  }

  /** Repair keeps the longest prefix of complete, acceptable slots. */
  lemma {:induction false} GoodPrefixIsLongest(f: Format, body: seq<byte>)
    ensures GoodCount(f, body) <= |Slots(f, body)|
    ensures forall i :: 0 <= i < GoodCount(f, body) ==> RecordCrcOk(f, Slots(f, body)[i])
    ensures GoodCount(f, body) < |Slots(f, body)| ==> !RecordCrcOk(f, Slots(f, body)[GoodCount(f, body)])
    decreases |body|
  {
    hide RecordCrcOk;
    if |body| >= f.size && RecordCrcOk(f, body[..f.size]) {
      var rest := body[f.size..];
      GoodPrefixIsLongest(f, rest);
      var slots := Slots(f, body);
      assert slots == [body[..f.size]] + Slots(f, rest);
      forall i | 0 <= i < GoodCount(f, body) ensures RecordCrcOk(f, slots[i]) {
        if i > 0 {
          assert slots[i] == Slots(f, rest)[i - 1];
        }
      }
    }
  }

  lemma {:induction false} GoodBytes(f: Format, body: seq<byte>)
    ensures GoodCount(f, body) <= |Slots(f, body)|
    ensures body[..GoodLength(f, body)] == Flat(Slots(f, body)[..GoodCount(f, body)])
    decreases |body|
  {
    hide RecordCrcOk;
    if |body| >= f.size && RecordCrcOk(f, body[..f.size]) {
      var rest := body[f.size..];
      GoodBytes(f, rest);
      FlatOfPrefix(body[..f.size], Slots(f, rest), GoodCount(f, rest));
      PrefixOfBody(body, f.size, GoodLength(f, rest));
    } else {
      assert Slots(f, body)[..0] == [];
    }
  }

  lemma FlatOfPrefix(r: Record, rs: seq<Record>, k: nat)
    requires k <= |rs|
    ensures Flat(([r] + rs)[..k + 1]) == r + Flat(rs[..k])
  {
    assert ([r] + rs)[..k + 1][1..] == rs[..k];
  }

  lemma PrefixOfBody(body: seq<byte>, m: nat, n: nat)
    requires m <= |body| && n <= |body[m..]|
    ensures body[..m + n] == body[..m] + body[m..][..n]
  {
  }

  /** A run of acceptable slots is kept whole; only a torn tail is cut. */
  lemma {:induction false} AllGood(f: Format, body: seq<byte>)
    requires forall i :: 0 <= i < |Slots(f, body)| ==> RecordCrcOk(f, Slots(f, body)[i])
    ensures GoodCount(f, body) == |Slots(f, body)|
  {
    GoodPrefixIsLongest(f, body);
  }

  lemma HasHeader(f: Format, b: seq<byte>)
    requires HeaderOk(f, b)
    ensures |b| >= HEADER
  {
  }

  lemma CutBackFits(f: Format, b: seq<byte>)
    requires |b| >= HEADER
    ensures HEADER <= |CutBack(f, b)| <= |b|
  {
  }

  /** Cutting back leaves the header alone. */
  lemma CutBackKeepsHeader(f: Format, b: seq<byte>)
    requires |b| >= HEADER
    ensures HeaderOk(f, CutBack(f, b)) == HeaderOk(f, b) && CutBack(f, b)[..HEADER] == b[..HEADER]
    ensures HeaderCount(CutBack(f, b)) == HeaderCount(b)
    ensures Body(CutBack(f, b)) == Body(b)[..GoodLength(f, Body(b))]
  {
    hide GoodLength, FromLe;
    var c := CutBack(f, b);
    assert c[..8] == b[..8] && c[8..12] == b[8..12] && c[12..16] == b[12..16];
    assert c[COUNT_AT..HEADER] == b[COUNT_AT..HEADER];
  }

  /** What repair leaves: the same header but for the count, exactly the good slots, no torn tail. */
  lemma RepairedFile(f: Format, b: seq<byte>)
    requires HeaderOk(f, b)
    ensures HeaderOk(f, Repaired(f, b))
    ensures Repaired(f, b)[..COUNT_AT] == b[..COUNT_AT]
    ensures HeaderCount(Repaired(f, b)) == GoodCount(f, Body(b)) % U64
    ensures GoodCount(f, Body(b)) <= |Slots(f, Body(b))|
    ensures Slots(f, Body(Repaired(f, b))) == Slots(f, Body(b))[..GoodCount(f, Body(b))]
    ensures Tail(f, Body(Repaired(f, b))) == []
    ensures Body(Repaired(f, b)) == Flat(Slots(f, Body(b))[..GoodCount(f, Body(b))]) <= Body(b)
  {
    hide RecordCrcOk, GoodCount, FromLe, HeaderOk, CutBack;
    HasHeader(f, b);
    var body := Body(b);
    GoodBytes(f, body);
    var kept := Slots(f, body)[..GoodCount(f, body)];
    var cut := CutBack(f, b);
    CutBackKeepsHeader(f, b);
    CutBackFits(f, b);
    assert cut[..COUNT_AT] == cut[..HEADER][..COUNT_AT] == b[..HEADER][..COUNT_AT] == b[..COUNT_AT];
    WithCountKeeps(f, cut, GoodCount(f, body));
    assert Flat(kept) + [] == Flat(kept);
    SlotsOfFlat(f, kept, []);
  }

  /** The bytes add up, and a second repair finds nothing to discard. */
  lemma {:induction false} RepairTwice(f: Format, b: seq<byte>)
    requires HeaderOk(f, b)
    ensures |Repaired(f, b)| == HEADER + GoodCount(f, Body(b)) * f.size <= |b|
    ensures Repaired(f, Repaired(f, b)) == Repaired(f, b)
  {
    hide RecordCrcOk, GoodCount, FromLe, Slots, Repaired;
    RepairedFile(f, b);
    GoodPrefixIsLongest(f, Body(b));
    var r := Repaired(f, b);
    var kept := Slots(f, Body(b))[..GoodCount(f, Body(b))];
    FlatLength(f, kept);
    assert |r| == HEADER + |Body(r)|;
    assert WithCount(r, GoodCount(f, Body(b))) == r by {
      CountWrittenTwice(f, b);
    }
    RepairFixpoint(f, r);
  }

  lemma CountWrittenTwice(f: Format, b: seq<byte>)
    requires |b| >= HEADER
    ensures WithCount(Repaired(f, b), GoodCount(f, Body(b))) == Repaired(f, b)
  {
    hide GoodCount, GoodLength;
    GoodBytes(f, Body(b));
  }

  lemma RepairFixpoint(f: Format, r: seq<byte>)
    requires HeaderOk(f, r) && Tail(f, Body(r)) == []
    requires forall i :: 0 <= i < |Slots(f, Body(r))| ==> RecordCrcOk(f, Slots(f, Body(r))[i])
    requires WithCount(r, |Slots(f, Body(r))|) == r
    ensures Repaired(f, r) == r
  {
    hide RecordCrcOk, GoodCount, Slots;
    AllGood(f, Body(r));
    GoodBytes(f, Body(r));
    FlatOfSlots(f, Body(r));
    var n := |Slots(f, Body(r))|;
    assert Slots(f, Body(r))[..n] == Slots(f, Body(r));
    assert r[..|r|] == r;
  }

  // --------------------------------------------------------- slots that cannot be read

  /** The part of a body before the slot with the given number. */
  function LegibleBody(f: Format, body: seq<byte>, readable: nat): (t: seq<byte>)
    ensures t <= body
    decreases |body|
  {
    if readable == 0 then []
    else if |body| < f.size then body
    else body[..f.size] + LegibleBody(f, body[f.size..], readable - 1)
  }

  /** A file of which only the first slots can be read. */
  function Legible(f: Format, b: seq<byte>, readable: nat): (c: seq<byte>)
    requires |b| >= HEADER
    ensures HEADER <= |c| <= |b| && c <= b && Body(c) == LegibleBody(f, Body(b), readable)
  {
    assert b == b[..HEADER] + Body(b);
    b[..HEADER] + LegibleBody(f, Body(b), readable)
  }

  /** The records of which only the first can be read. */
  function UpTo(rs: seq<Record>, readable: nat): (t: seq<Record>)
    ensures t <= rs && (|t| == |rs| <==> readable >= |rs|)
  {
    if readable < |rs| then rs[..readable] else rs
  }

  lemma UpToMore(r: Record, rs: seq<Record>, readable: nat)
    ensures UpTo([r] + rs, readable + 1) == [r] + UpTo(rs, readable)
  {
  }

  lemma {:induction false} LegibleSlots(f: Format, body: seq<byte>, readable: nat)
    ensures Slots(f, LegibleBody(f, body, readable)) == UpTo(Slots(f, body), readable)
    decreases |body|
  {
    hide Slots, LegibleBody, UpTo;
    FirstSlot(f, body);
    FirstSlot(f, LegibleBody(f, body, readable));
    if readable > 0 && |body| >= f.size {
      LegibleSlots(f, body[f.size..], readable - 1);
      NextSlot(f, body, readable);
      UpToMore(body[..f.size], Slots(f, body[f.size..]), readable - 1);
    } else {
      NoNextSlot(f, body, readable);
    }
  }

  lemma NoNextSlot(f: Format, body: seq<byte>, readable: nat)
    requires readable == 0 || |body| < f.size
    ensures |LegibleBody(f, body, readable)| < f.size && UpTo(Slots(f, body), readable) == []
  {
  }

  lemma {:induction false} AllLegible(f: Format, body: seq<byte>, readable: nat)
    requires readable > |Slots(f, body)|
    ensures LegibleBody(f, body, readable) == body
    decreases |body|
  {
    hide Slots;
    FirstSlot(f, body);
    if |body| >= f.size {
      AllLegible(f, body[f.size..], readable - 1);
      assert body == body[..f.size] + body[f.size..];
    }
  }

  lemma FirstSlot(f: Format, body: seq<byte>)
    ensures Slots(f, body) == if |body| < f.size then [] else [body[..f.size]] + Slots(f, body[f.size..])
  {
  }

  lemma LegibleHeader(f: Format, b: seq<byte>, readable: nat)
    requires |b| >= HEADER
    ensures HeaderOk(f, Legible(f, b, readable)) == HeaderOk(f, b)
    ensures HeaderCount(Legible(f, b, readable)) == HeaderCount(b)
    ensures Legible(f, b, readable)[..HEADER] == b[..HEADER]
  {
    hide LegibleBody, FromLe;
    var c := Legible(f, b, readable);
    assert c[..8] == b[..8] && c[8..12] == b[8..12] && c[12..16] == b[12..16];
    assert c[COUNT_AT..HEADER] == b[COUNT_AT..HEADER];
  }

  datatype FileRepairResult = FileRepairResult(ok: bool, validRecords: nat, bytesDiscarded: nat)

  /**
   The read loop of repair: stop at the first slot that is torn, cannot be read, or fails
   its check.  The slots before the one numbered readable can be read.
   */
  method ScanGoodSlots(f: Format, file: seq<byte>, readable: nat) returns (valid: nat, validEnd: nat)
    requires |file| >= HEADER
    ensures valid == GoodCount(f, Body(Legible(f, file, readable)))
    ensures validEnd == HEADER + GoodLength(f, Body(Legible(f, file, readable)))
  {
    hide RecordCrcOk, GoodCount, GoodLength, LegibleBody;
    valid, validEnd := 0, HEADER;
    ghost var body := LegibleBody(f, Body(file), readable);
    while validEnd + f.size <= |file|
      invariant HEADER <= validEnd <= |file| && valid <= readable
      invariant GoodCount(f, body) == valid + GoodCount(f, LegibleBody(f, file[validEnd..], readable - valid))
      invariant HEADER + GoodLength(f, body)
             == validEnd + GoodLength(f, LegibleBody(f, file[validEnd..], readable - valid))
    {
      GoodNext(f, file[validEnd..], readable - valid);
      if valid == readable {
        return;
      }
      var slot := file[validEnd..validEnd + f.size];
      assert file[validEnd..][..f.size] == slot;
      assert file[validEnd..][f.size..] == file[validEnd + f.size..];
      if !RecordCrcOk(f, slot) {
        return;
      }
      valid := valid + 1;
      validEnd := validEnd + f.size;
    }
    GoodNext(f, file[validEnd..], readable - valid);
  }

  /** What the loop sees of the slots ahead. */
  lemma GoodNext(f: Format, body: seq<byte>, readable: nat)
    ensures var t := LegibleBody(f, body, readable);
      if readable > 0 && |body| >= f.size && RecordCrcOk(f, body[..f.size]) then
        (GoodCount(f, t) == 1 + GoodCount(f, LegibleBody(f, body[f.size..], readable - 1))
         && GoodLength(f, t) == f.size + GoodLength(f, LegibleBody(f, body[f.size..], readable - 1)))
      else
        GoodCount(f, t) == 0 == GoodLength(f, t)
  {
    hide RecordCrcOk;
    if readable > 0 && |body| >= f.size {
      NextSlot(f, body, readable);
    }
  }

  lemma NextSlot(f: Format, body: seq<byte>, readable: nat)
    requires |body| >= f.size && readable > 0
    ensures var t := LegibleBody(f, body, readable);
      |t| >= f.size && t[..f.size] == body[..f.size] && t[f.size..] == LegibleBody(f, body[f.size..], readable - 1)
  {
  }

  /** Where a file operation of repair fails, if it does; written: the new count still reached the file. */
  datatype RepairFault = NoFault | CannotOpen | CannotCut | CannotReopen | CannotCount(written: bool)

  /** The file has a sound header, and nothing fails; cutting and reopening happen only to a longer file. */
  predicate RepairSucceeds(f: Format, b: seq<byte>, readable: nat, fault: RepairFault) {
    && HeaderOk(f, b)
    && (fault.NoFault? || ((fault.CannotCut? || fault.CannotReopen?) && CutBack(f, Legible(f, b, readable)) == b))
  }

  /** What a failed repair leaves of the file. */
  function LeftByRepair(f: Format, b: seq<byte>, readable: nat, fault: RepairFault): seq<byte> {
    if !HeaderOk(f, b) then b
    else match fault
         case CannotReopen => CutBack(f, Legible(f, b, readable))
         case CannotCount(written) =>
           if written then Repaired(f, Legible(f, b, readable)) else CutBack(f, Legible(f, b, readable))
         case _ => b
  }

  /**
   repair_record_file.  A slot that cannot be read is no error to it: whatever lies behind
   is cut off, and it succeeds.
   */
  method RepairRecordFile(f: Format, dir: DataDir, name: string, readable: nat, fault: RepairFault)
    returns (out: FileRepairResult)
    modifies dir
    ensures out.ok == (name in old(dir.files) && RepairSucceeds(f, old(dir.files)[name], readable, fault))
    ensures !out.ok ==>
              dir.files == if name in old(dir.files)
                           then old(dir.files)[name := LeftByRepair(f, old(dir.files)[name], readable, fault)]
                           else old(dir.files)
    ensures out.ok ==> dir.files == old(dir.files)[name := Repaired(f, Legible(f, old(dir.files)[name], readable))]
    ensures out.ok ==> out.validRecords == GoodCount(f, Body(Legible(f, old(dir.files)[name], readable)))
    ensures out.ok ==> out.bytesDiscarded == |old(dir.files)[name]| - |dir.files[name]|
  {
    hide RecordCrcOk, GoodCount, Slots, FromLe, Legible;
    out := FileRepairResult(false, 0, 0);
    if name !in dir.files || fault.CannotOpen? {
      return;
    }
    var file := dir.files[name];
    if |file| < HEADER {
      return;
    }
    if file[..8] != f.magic || FromLe(file[8..12]) != VERSION || FromLe(file[12..16]) != f.size {
      return;
    }
    LegibleCut(f, file, readable);
    var valid, validEnd := ScanGoodSlots(f, file, readable);
    var discarded := |file| - validEnd;
    assert file[..|file|] == file;
    if discarded > 0 {
      if fault.CannotCut? {
        return;
      }
      dir.files := dir.files[name := file[..validEnd]];
      if fault.CannotReopen? {
        return;
      }
    }
    if fault == CannotCount(false) {
      return;
    }
    dir.files := dir.files[name := WithCount(dir.files[name], valid)];
    if fault.CannotCount? {
      return;
    }
    out := FileRepairResult(true, valid, discarded);
  }

  lemma LegibleCut(f: Format, b: seq<byte>, readable: nat)
    requires |b| >= HEADER
    ensures var end := HEADER + GoodLength(f, Body(Legible(f, b, readable)));
      && end <= |b| && CutBack(f, Legible(f, b, readable)) == b[..end]
      && |Repaired(f, Legible(f, b, readable))| == end && HEADER <= |Legible(f, b, readable)| <= |b|
  {
    hide GoodLength, GoodCount, LegibleBody;
    var c := Legible(f, b, readable);
    assert forall n :: 0 <= n <= |c| ==> c[..n] == b[..n];
  }

  /** The bytes add up. */
  lemma {:induction false} RepairCounts(f: Format, b: seq<byte>, readable: nat)
    requires HeaderOk(f, b)
    ensures |b| >= HEADER
    ensures |Repaired(f, Legible(f, b, readable))|
         == HEADER + GoodCount(f, Body(Legible(f, b, readable))) * f.size <= |b|
  {
    hide GoodCount, Repaired, HeaderOk, LegibleBody;
    HasHeader(f, b);
    LegibleHeader(f, b, readable);
    RepairTwice(f, Legible(f, b, readable));
  }
}
