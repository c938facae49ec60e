/**
 Hourly file names and time windows: src/storage/file_roll.h.
 Names sort as times do, which is what lets the reader prune files by name.
 */
module TextOrder {

  /** std::string's operator<. */
  predicate Less(a: string, b: string) {
    b != [] && (a == [] || a[0] < b[0] || (a[0] == b[0] && Less(a[1..], b[1..])))
  }

  lemma {:induction false} LessIsTotal(a: string, b: string)
    ensures Less(a, b) || a == b || Less(b, a)
    ensures !(Less(a, b) && Less(b, a))
    ensures a == b ==> !Less(a, b)
  {
    if a != [] && b != [] {
      LessIsTotal(a[1..], b[1..]);
      assert a == [a[0]] + a[1..] && b == [b[0]] + b[1..];
    }
  }

  /** The first difference decides, and a proper prefix comes first. */
  lemma {:induction false} LessMeans(a: string, b: string)
    ensures Less(a, b) <==>
            a < b || exists k :: 0 <= k < |a| && k < |b| && a[..k] == b[..k] && a[k] < b[k]
  {
    if a != [] && b != [] && a[0] == b[0] {
      var c, d := a[1..], b[1..];
      LessMeans(c, d);
      assert a == [a[0]] + c && b == [b[0]] + d;
      if k :| 0 <= k < |c| && k < |d| && c[..k] == d[..k] && c[k] < d[k] {
        assert a[..k + 1] == [a[0]] + c[..k] && b[..k + 1] == [b[0]] + d[..k];
        assert a[k + 1] < b[k + 1];
      }
      if k :| 0 <= k < |a| && k < |b| && a[..k] == b[..k] && a[k] < b[k] {
        assert c[..k - 1] == a[..k][1..] && d[..k - 1] == b[..k][1..];
        assert c[k - 1] < d[k - 1];
      }
    } else if a != [] && b != [] {
      assert a[..0] == b[..0];
      if a[0] > b[0] {
        forall k | 0 < k < |a| && k < |b| ensures a[..k] != b[..k] {
          assert a[..k][0] != b[..k][0];
        }
      }
    }
  }

  lemma {:induction false} LessTransitive(a: string, b: string, c: string)
    requires Less(a, b) && Less(b, c)
    ensures Less(a, c)
  {
    if a != [] && a[0] == b[0] == c[0] {
      LessTransitive(a[1..], b[1..], c[1..]);
    }
  }

  lemma {:induction false} CommonHead(p: string, a: string, b: string)
    ensures Less(p + a, p + b) == Less(a, b)
  {
    if p == [] {
      assert p + a == a && p + b == b;
    } else {
      assert (p + a)[1..] == p[1..] + a && (p + b)[1..] == p[1..] + b;
      CommonHead(p[1..], a, b);
    }
  }

  /** Heads of equal length decide first. */
  lemma {:induction false} FixedWidth(x: string, y: string, a: string, b: string)
    requires |x| == |y|
    ensures Less(x + a, y + b) == (Less(x, y) || (x == y && Less(a, b)))
  {
    if x == [] {
      assert x + a == a && y + b == b;
    } else {
      assert (x + a)[1..] == x[1..] + a && (y + b)[1..] == y[1..] + b;
      FixedWidth(x[1..], y[1..], a, b);
      assert x == [x[0]] + x[1..] && y == [y[0]] + y[1..];
    }
  }

  // ------------------------------------------------------ zero-padded decimals

  function DigitChar(d: nat): (c: char)
    requires d < 10
    ensures '0' <= c <= '9'
  {
    '0' + d as char
  }

  function Pow10(w: nat): (p: nat)
    ensures p > 0
  {
    if w == 0 then 1 else 10 * Pow10(w - 1)
  }

  /** printf's %0wd of a natural number: at least w digits. */
  function Decimal(n: nat, w: nat): (s: string)
    requires w >= 1
    ensures |s| >= w && forall i :: 0 <= i < |s| ==> '0' <= s[i] <= '9'
    decreases n, w
  {
    if n < 10 && w == 1 then [DigitChar(n)]
    else Decimal(n / 10, if w > 1 then w - 1 else 1) + [DigitChar(n % 10)]
  }

  lemma {:induction false} DecimalWidth(n: nat, w: nat)
    requires w >= 1 && n < Pow10(w)
    ensures |Decimal(n, w)| == w
    decreases w
  {
    if w > 1 {
      DecimalWidth(n / 10, w - 1);
    } else {
      assert Pow10(1) == 10;
    }
  }

  lemma DigitOrder(d: nat, e: nat)
    requires d < 10 && e < 10
    ensures (DigitChar(d) < DigitChar(e)) == (d < e)
    ensures (DigitChar(d) == DigitChar(e)) == (d == e)
  {
  }

  lemma LastDigit(n: nat, w: nat)
    requires w >= 1 && n < Pow10(w)
    ensures w == 1 ==> Decimal(n, w) == [DigitChar(n % 10)]
    ensures w > 1 ==> Decimal(n, w) == Decimal(n / 10, w - 1) + [DigitChar(n % 10)]
  {
    hide DigitChar;
    assert Pow10(1) == 10;
  }

  lemma OneCharacter(c: char, d: char)
    ensures Less([c], [d]) == (c < d)
  {
  }

  /** Fixed-width decimals sort as their values. */
  lemma {:induction false} DecimalOrder(m: nat, n: nat, w: nat)
    requires w >= 1 && m < Pow10(w) && n < Pow10(w)
    ensures Less(Decimal(m, w), Decimal(n, w)) == (m < n)
    ensures (Decimal(m, w) == Decimal(n, w)) == (m == n)
    decreases w
  {
    hide DigitChar, Less, Decimal;
    DigitOrder(m % 10, n % 10);
    LastDigit(m, w);
    LastDigit(n, w);
    OneCharacter(DigitChar(m % 10), DigitChar(n % 10));
    if w == 1 {
      assert Pow10(1) == 10;
    } else {
      DecimalOrder(m / 10, n / 10, w - 1);
      DecimalWidth(m / 10, w - 1);
      DecimalWidth(n / 10, w - 1);
      var x, y := Decimal(m / 10, w - 1), Decimal(n / 10, w - 1);
      var c, d := [DigitChar(m % 10)], [DigitChar(n % 10)];
      FixedWidth(x, y, c, d);
      assert x + c == y + d <==> x == y && c == d by {
        assert (x + c)[..|x|] == x && (y + d)[..|y|] == y && (x + c)[|x|] == c[0] && (y + d)[|y|] == d[0];
      }
    }
  }

  /** The number a string of digits stands for. */
  function DecimalValue(s: string): int {
    if s == [] then 0
    else DecimalValue(s[..|s| - 1]) * 10 + (s[|s| - 1] as int - '0' as int)
  }

  /** Printing and reading back; a number is wider than its field only when it does not fit. */
  lemma {:induction false} DecimalReads(n: nat, w: nat)
    requires w >= 1
    ensures DecimalValue(Decimal(n, w)) == n
    ensures |Decimal(n, w)| == w <==> n < Pow10(w)
    decreases n, w
  {
    if n < 10 && w == 1 {
      assert Pow10(1) == 10;
      assert Decimal(n, w)[..0] == [];
    } else {
      var head := Decimal(n / 10, if w > 1 then w - 1 else 1);
      DecimalReads(n / 10, if w > 1 then w - 1 else 1);
      assert Decimal(n, w)[..|head|] == head;
      assert Pow10(1) == 10;
    }
  }

  /** A number field followed by the rest of the name. */
  lemma FieldOrder(m: nat, n: nat, w: nat, a: string, b: string)
    requires w >= 1 && m < Pow10(w) && n < Pow10(w)
    ensures Less(Decimal(m, w) + a, Decimal(n, w) + b) == (m < n || (m == n && Less(a, b)))
    ensures (Decimal(m, w) + a == Decimal(n, w) + b) == (m == n && a == b)
  {
    DecimalWidth(m, w);
    DecimalWidth(n, w);
    DecimalOrder(m, n, w);
    var x, y := Decimal(m, w), Decimal(n, w);
    FixedWidth(x, y, a, b);
    if x + a == y + b {
      assert (x + a)[..w] == x && (y + b)[..w] == y && (x + a)[w..] == a && (y + b)[w..] == b;
    }
  }
}

module Options {
  datatype Option<+T> = None | Some(value: T)
}

module FileRoll {
  import opened Calendar
  import opened DataDirectory
  import opened Options
  import opened TextOrder

  /** Closed on both sides; None is unlimited. */
  datatype TimeWindow = TimeWindow(fromUs: Option<int>, toUs: Option<int>) {
    predicate Empty() {
      fromUs.None? && toUs.None?
    }

    predicate Valid() {
      !(fromUs.Some? && toUs.Some? && fromUs.value > toUs.value)
    }

    predicate Contains(ts: int) {
      && !(fromUs.Some? && ts < fromUs.value)
      && !(toUs.Some? && ts > toUs.value)
    }
  }

  const NO_WINDOW := TimeWindow(None, None)

  /** A window is one when it contains something, has no bounds when it contains everything, and is closed. */
  lemma WindowMeaning(window: TimeWindow)
    ensures window.Valid() <==> exists ts :: window.Contains(ts)
    ensures window.Empty() <==> forall ts :: window.Contains(ts)
    ensures window.Valid() && window.fromUs.Some? ==>
              window.Contains(window.fromUs.value) && !window.Contains(window.fromUs.value - 1)
    ensures window.Valid() && window.toUs.Some? ==>
              window.Contains(window.toUs.value) && !window.Contains(window.toUs.value + 1)
    ensures forall a, b, ts :: window.Contains(a) && window.Contains(b) && a <= ts <= b ==> window.Contains(ts)
  {
    if window.fromUs.Some? {
      assert !window.Contains(window.fromUs.value - 1);
    }
    if window.toUs.Some? {
      assert !window.Contains(window.toUs.value + 1);
    }
    if window.Valid() {
      assert window.Contains(if window.fromUs.Some? then window.fromUs.value else if window.toUs.Some? then window.toUs.value else 0);
    }
  }

  // -------------------------------------------------------------------- names

  function HourlyFileName(prefix: string, ts: int): string {
    var us := if ts < 0 then 0 else ts;
    var tm := Gmtime(us / 1_000_000);
    prefix + "_" + DateField(tm)
  }

  function DateField(tm: Tm): string {
    Decimal(tm.year, 4) + AfterYear(tm)
  }

  function AfterYear(tm: Tm): string {
    Decimal(tm.month, 2) + (Decimal(tm.day, 2) + ("_" + (Decimal(tm.hour, 2) + ".bin")))
  }

  predicate IsDigit(c: char) {
    '0' <= c <= '9'
  }

  /** prefix_YYYYMMDD_HH.bin */
  predicate IsHourlyName(prefix: string, name: string) {
    var at := |prefix| + 1;
    && |name| == at + 15
    && name[..at] == prefix + "_"
    && (forall i :: at <= i < at + 8 ==> IsDigit(name[i]))
    && name[at + 8] == '_'
    && IsDigit(name[at + 9]) && IsDigit(name[at + 10])
    && name[at + 11..] == ".bin"
  }

  ghost predicate AllDigits(s: string) {
    forall c :: c in s ==> c in "0123456789"
  }

  ghost predicate HasShape(name: string, prefix: string, date: string, hour: string) {
    && AllDigits(date) && |date| == 8 && AllDigits(hour) && |hour| == 2
    && name == prefix + "_" + date + "_" + hour + ".bin"
  }

  lemma HourlyNameShape(prefix: string, name: string)
    ensures IsHourlyName(prefix, name) <==> exists date, hour :: HasShape(name, prefix, date, hour)
  {
    if IsHourlyName(prefix, name) {
      var at := |prefix| + 1;
      var date, hour := name[at..at + 8], name[at + 9..at + 11];
      DigitsOnly(date);
      DigitsOnly(hour);
      assert name == name[..at] + date + [name[at + 8]] + hour + name[at + 11..];
      assert HasShape(name, prefix, date, hour);
    }
    forall date, hour | HasShape(name, prefix, date, hour) ensures IsHourlyName(prefix, name) {
      ShapeIsHourly(prefix, name, date, hour);
    }
  }

  lemma ShapeIsHourly(prefix: string, name: string, date: string, hour: string)
    requires HasShape(name, prefix, date, hour)
    ensures IsHourlyName(prefix, name)
  {
    hide IsDigit, AllDigits;
    DigitsOnly(date);
    DigitsOnly(hour);
    var at := |prefix| + 1;
    assert name[..at] == prefix + "_" && name[at + 11..] == ".bin";
    assert forall i :: at <= i < at + 8 ==> name[i] == date[i - at];
    assert name[at + 9] == hour[0] && name[at + 10] == hour[1];
  }

  lemma DigitsOnly(s: string)
    ensures AllDigits(s) <==> forall i :: 0 <= i < |s| ==> IsDigit(s[i])
  {
    assert forall c :: c in "0123456789" <==> IsDigit(c);
  }

  method IsHourlyFileName(prefix: string, name: string) returns (ok: bool)
    ensures ok == IsHourlyName(prefix, name)
  {
    var head := prefix + "_";
    var tail := ".bin";
    var fullLength := |head| + 8 + 1 + 2 + |tail|;
    if |name| != fullLength {
      return false;
    }
    if name[..|head|] != head {
      return false;
    }
    if name[|name| - |tail|..] != tail {
      return false;
    }
    for i := |head| to |head| + 8
      invariant forall j :: |head| <= j < i ==> IsDigit(name[j])
    {
      if !IsDigit(name[i]) {
        return false;
      }
    }
    if name[|head| + 8] != '_' {
      return false;
    }
    return IsDigit(name[|head| + 9]) && IsDigit(name[|head| + 10]);
  }

  /** hourly_file_in_window: pruning by name alone. */
  predicate NameInWindow(prefix: string, name: string, window: TimeWindow) {
    && IsHourlyName(prefix, name)
    && !(window.fromUs.Some? && Less(name, HourlyFileName(prefix, window.fromUs.value)))
    && !(window.toUs.Some? && Less(HourlyFileName(prefix, window.toUs.value), name))
  }

  // ------------------------------------------------------ names sort as hours

  const HOUR_US: int := 3_600_000_000
  const LAST_TS: int := (LAST_SECOND + 1) * 1_000_000 - 1

  /** The last microsecond of year 9999 and everything back to the epoch. */
  predicate InRange(ts: int) {
    0 <= ts <= LAST_TS
  }

  function HourOf(ts: int): int {
    ts / HOUR_US
  }

  lemma DateFieldOrder(a: Tm, b: Tm)
    requires ValidTm(a) && ValidTm(b) && a.year <= 9999 && b.year <= 9999
    ensures Less(DateField(a), DateField(b)) ==
            (DateBefore(a, b) || ((a.year, a.month, a.day) == (b.year, b.month, b.day) && a.hour < b.hour))
    ensures (DateField(a) == DateField(b)) == ((a.year, a.month, a.day, a.hour) == (b.year, b.month, b.day, b.hour))
  {
    hide Less, Decimal;
    var x0, y0 := ".bin", ".bin";
    var x1, y1 := Decimal(a.hour, 2) + x0, Decimal(b.hour, 2) + y0;
    var x2, y2 := Decimal(a.day, 2) + ("_" + x1), Decimal(b.day, 2) + ("_" + y1);
    var x3, y3 := Decimal(a.month, 2) + x2, Decimal(b.month, 2) + y2;
    assert Pow10(2) == 100 && Pow10(4) == 10000;
    LessIsTotal(x0, y0);
    FieldOrder(a.hour, b.hour, 2, x0, y0);
    CommonHead("_", x1, y1);
    assert ("_" + x1 == "_" + y1) == (x1 == y1) by {
      assert ("_" + x1)[1..] == x1 && ("_" + y1)[1..] == y1;
    }
    FieldOrder(a.day, b.day, 2, "_" + x1, "_" + y1);
    FieldOrder(a.month, b.month, 2, x2, y2);
    FieldOrder(a.year, b.year, 4, x3, y3);
  }

  lemma TmOf(ts: int)
    requires InRange(ts)
    ensures ValidTm(Gmtime(ts / 1_000_000)) && Gmtime(ts / 1_000_000).year <= 9999
    ensures HourOf(ts) == ts / 1_000_000 / 3600
  {
    GmtimeIsInverse(ts / 1_000_000);
    FourDigitYear(ts / 1_000_000);
  }

  /** Names of one stream compare exactly as the UTC hours they stand for. */
  lemma {:induction false} NamesOrderAsHours(prefix: string, s: int, t: int)
    requires InRange(s) && InRange(t)
    ensures Less(HourlyFileName(prefix, s), HourlyFileName(prefix, t)) == (HourOf(s) < HourOf(t))
    ensures (HourlyFileName(prefix, s) == HourlyFileName(prefix, t)) == (HourOf(s) == HourOf(t))
  {
    hide Less, DateField, Gmtime, HourOf;
    var a, b := Gmtime(s / 1_000_000), Gmtime(t / 1_000_000);
    TmOf(s);
    TmOf(t);
    DateFieldOrder(a, b);
    DateFieldOrder(b, a);
    var head := prefix + "_";
    CommonHead(head, DateField(a), DateField(b));
    assert head + DateField(a) == head + DateField(b) ==> DateField(a) == DateField(b) by {
      assert (head + DateField(a))[|head|..] == DateField(a) && (head + DateField(b))[|head|..] == DateField(b);
    }
    HoursOrderDates(s / 1_000_000, t / 1_000_000);
    HoursOrderDates(t / 1_000_000, s / 1_000_000);
  }

  lemma DateFieldShape(tm: Tm)
    requires ValidTm(tm) && tm.year <= 9999
    ensures var d := DateField(tm);
            && |d| == 15 && d[8] == '_' && d[11..] == ".bin"
            && (forall i :: 0 <= i < 8 || 9 <= i < 11 ==> IsDigit(d[i]))
  {
    assert Pow10(2) == 100 && Pow10(4) == 10000;
    DecimalWidth(tm.year, 4);
    DecimalWidth(tm.month, 2);
    DecimalWidth(tm.day, 2);
    DecimalWidth(tm.hour, 2);
    var y, m, d, h := Decimal(tm.year, 4), Decimal(tm.month, 2), Decimal(tm.day, 2), Decimal(tm.hour, 2);
    assert DateField(tm) == y + m + d + "_" + h + ".bin";
  }

  /** A generated name belongs to its own stream and to no other. */
  lemma GeneratedNameIsRecognised(prefix: string, other: string, ts: int)
    requires InRange(ts)
    ensures IsHourlyName(other, HourlyFileName(prefix, ts)) <==> other == prefix
  {
    hide Gmtime, IsDigit, DateField;
    TmOf(ts);
    var tm := Gmtime(ts / 1_000_000);
    DateFieldShape(tm);
    var name, at := HourlyFileName(prefix, ts), |prefix| + 1;
    assert name[..at] == prefix + "_" && name[at..] == DateField(tm);
    assert forall i :: at <= i < at + 15 ==> name[i] == DateField(tm)[i - at];
    assert name[at + 11..] == DateField(tm)[11..];
    if IsHourlyName(other, name) {
      assert name[..at] == other + "_";
      assert (prefix + "_")[..|prefix|] == (other + "_")[..|prefix|];
    }
  }

  /** The instant a name is made for: times before the epoch count as the epoch. */
  function Clamp(ts: int): nat {
    if ts < 0 then 0 else ts
  }

  /** The name's parts, the numbers read as decimals. */
  predicate Reads(name: string, prefix: string, t: Tm) {
    var at, end := |prefix| + 1, |name| - 11;
    && at + 4 <= end
    && name[..at] == prefix + "_" && name[end + 4] == '_' && name[end + 7..] == ".bin"
    && DecimalValue(name[at..end]) == t.year
    && DecimalValue(name[end..end + 2]) == t.month
    && DecimalValue(name[end + 2..end + 4]) == t.day
    && DecimalValue(name[end + 5..end + 7]) == t.hour
  }

  /**
   The digits of a name are the UTC year, month, day and hour of its instant.  The year
   has more than four digits exactly from year 10000 on.
   */
  lemma NameReads(prefix: string, ts: int, t: Tm)
    requires ValidTm(t) && SecondsSinceEpoch(t) == Clamp(ts) / 1_000_000
    ensures Reads(HourlyFileName(prefix, ts), prefix, t)
    ensures |HourlyFileName(prefix, ts)| == |prefix| + 16 <==> ts <= LAST_TS
  {
    hide Gmtime, Decimal, DecimalValue, ValidTm, SecondsSinceEpoch;
    GmtimeIsUnique(t);
    FourDigitYear(SecondsSinceEpoch(t));
    WithinYears(ts);
    TmBounds(t);
    assert Pow10(2) == 100 && Pow10(4) == 10000;
    DecimalReads(t.year, 4);
    DecimalReads(t.month, 2);
    DecimalReads(t.day, 2);
    DecimalReads(t.hour, 2);
    NameParts(prefix + "_", Decimal(t.year, 4), Decimal(t.month, 2), Decimal(t.day, 2), Decimal(t.hour, 2));
  }

  lemma TmBounds(t: Tm)
    requires ValidTm(t)
    ensures t.month < 100 && t.day < 100 && t.hour < 100
  {
  }

  lemma WithinYears(ts: int)
    ensures Clamp(ts) / 1_000_000 <= LAST_SECOND <==> ts <= LAST_TS
  {
    LastInRange();
  }

  lemma NameParts(head: string, y: string, m: string, d: string, h: string)
    requires |m| == 2 && |d| == 2 && |h| == 2
    ensures var name := head + (y + (m + (d + ("_" + (h + ".bin")))));
            var end := |name| - 11;
      && end == |head| + |y|
      && name[..|head|] == head && name[|head|..end] == y && name[end..end + 2] == m && name[end + 2..end + 4] == d
      && name[end + 4] == '_' && name[end + 5..end + 7] == h && name[end + 7..] == ".bin"
  {
  }

  /** 2023-11-14 22:13:20 UTC is filed under its hour. */
  lemma KnownName(prefix: string)
    ensures HourlyFileName(prefix, 1_700_000_000_000_000) == prefix + "_20231114_22.bin"
  {
    hide Gmtime, Decimal;
    KnownInstant();
    TwoDigits(20);
    TwoDigits(23);
    TwoDigits(11);
    TwoDigits(14);
    TwoDigits(22);
    FourDigits(2023);
    assert Decimal(2023, 4) == "2023" && Decimal(11, 2) == "11" && Decimal(14, 2) == "14" && Decimal(22, 2) == "22";
    assert prefix + "_" + "20231114_22.bin" == prefix + "_20231114_22.bin";
  }

  lemma FourDigits(n: nat)
    requires n < 10000
    ensures Decimal(n, 4) == Decimal(n / 100, 2) + Decimal(n % 100, 2)
  {
    hide Decimal, DigitChar;
    TwoDigits(n / 100);
    TwoDigits(n % 100);
    LeadingDigits(n, 4);
    LeadingDigits(n / 10, 3);
  }

  /**
   A file is opened exactly when its UTC hour lies between those of the window's ends,
   for ends up to year 9999; an end before the epoch counts as the epoch.
   */
  lemma NameInWindowMeansHours(prefix: string, ts: int, window: TimeWindow)
    requires InRange(ts)
    requires window.fromUs.Some? ==> window.fromUs.value <= LAST_TS
    requires window.toUs.Some? ==> window.toUs.value <= LAST_TS
    ensures NameInWindow(prefix, HourlyFileName(prefix, ts), window) <==>
            && (window.fromUs.Some? ==> HourOf(Clamp(window.fromUs.value)) <= HourOf(ts))
            && (window.toUs.Some? ==> HourOf(ts) <= HourOf(Clamp(window.toUs.value)))
  {
    hide Less, Gmtime, DateField, IsHourlyName, HourOf;
    GeneratedNameIsRecognised(prefix, prefix, ts);
    LastInRange();
    if window.fromUs.Some? {
      var from := Clamp(window.fromUs.value);
      assert HourlyFileName(prefix, from) == HourlyFileName(prefix, window.fromUs.value);
      NamesOrderAsHours(prefix, ts, from);
    }
    if window.toUs.Some? {
      var to := Clamp(window.toUs.value);
      assert HourlyFileName(prefix, to) == HourlyFileName(prefix, window.toUs.value);
      NamesOrderAsHours(prefix, to, ts);
    }
  }

  /** The years of a window's end for which names still sort as times do. */
  predicate EndSortsAsTime(window: TimeWindow) {
    window.toUs.Some? ==>
      var year := Gmtime((if window.toUs.value < 0 then 0 else window.toUs.value) / 1_000_000).year;
      year <= 9999 || 99992 <= year <= 99999
  }

  /** Exactly the windows that pruning by name serves: see PruningIsSafeExactlyWhen. */
  predicate PrunesSafely(window: TimeWindow) {
    EndSortsAsTime(window) || (window.fromUs.Some? && window.fromUs.value > LAST_TS)
  }

  /** No record inside such a window is pruned. */
  lemma {:induction false} PruningKeepsMatches(prefix: string, ts: int, window: TimeWindow)
    requires InRange(ts) && window.Contains(ts) && PrunesSafely(window)
    ensures NameInWindow(prefix, HourlyFileName(prefix, ts), window)
  {
    hide Less, Gmtime, DateField, IsHourlyName, HourOf;
    GeneratedNameIsRecognised(prefix, prefix, ts);
    if window.fromUs.Some? {
      var from := if window.fromUs.value < 0 then 0 else window.fromUs.value;
      assert HourlyFileName(prefix, from) == HourlyFileName(prefix, window.fromUs.value);
      NamesOrderAsHours(prefix, ts, from);
      HoursAscend(from, ts);
    }
    if window.toUs.Some? {
      EndIsNotBefore(prefix, ts, window.toUs.value);
    }
  }

  lemma EndIsNotBefore(prefix: string, ts: int, to: int)
    requires InRange(ts) && ts <= to && EndSortsAsTime(TimeWindow(None, Some(to)))
    ensures !Less(HourlyFileName(prefix, to), HourlyFileName(prefix, ts))
  {
    hide Less, Gmtime, DateField, IsHourlyName, HourOf, HourlyFileName;
    if to <= LAST_TS {
      NamesOrderAsHours(prefix, to, ts);
      HoursAscend(ts, to);
    } else {
      var name, end := HourlyFileName(prefix, ts), HourlyFileName(prefix, LAST_TS);
      FourDigitYear(to / 1_000_000);
      FarNameOrder(prefix, to);
      NamesOrderAsHours(prefix, LAST_TS, ts) by { LastInRange(); }
      HoursAscend(ts, LAST_TS);
      LessIsTotal(name, end);
      if Less(HourlyFileName(prefix, to), name) && name != end {
        LessTransitive(HourlyFileName(prefix, to), name, end);
      }
    }
  }

  lemma HoursAscend(s: int, t: int)
    requires s <= t
    ensures HourOf(s) <= HourOf(t)
  {
  }

  /**
   For every window with a 64-bit end: pruning keeps all matching files exactly when the
   end lies in a year up to 9999 or in 99992 to 99999, or when the window starts after
   year 9999 and so matches nothing.
   */
  lemma {:induction false} PruningIsSafeExactlyWhen(prefix: string, window: TimeWindow)
    requires window.toUs.Some? ==> window.toUs.value < 0x8000_0000_0000_0000
    ensures (forall ts :: InRange(ts) && window.Contains(ts) ==> NameInWindow(prefix, HourlyFileName(prefix, ts), window))
       <==> PrunesSafely(window)
  {
    hide Less, Gmtime, DateField, IsHourlyName, HourOf, HourlyFileName;
    if PrunesSafely(window) {
      forall ts | InRange(ts) && window.Contains(ts) ensures NameInWindow(prefix, HourlyFileName(prefix, ts), window) {
        PruningKeepsMatches(prefix, ts, window);
      }
    } else {
      LastHourIsPruned(prefix, window);
      assert InRange(LAST_TS) && window.Contains(LAST_TS);
    }
  }

  lemma LastHourIsPruned(prefix: string, window: TimeWindow)
    requires !PrunesSafely(window) && window.toUs.value < 0x8000_0000_0000_0000
    ensures InRange(LAST_TS) && LAST_TS < window.toUs.value
    ensures !NameInWindow(prefix, HourlyFileName(prefix, LAST_TS), window)
  {
    hide Less, Gmtime, DateField, IsHourlyName, HourOf, HourlyFileName;
    var to := window.toUs.value;
    LastInRange();
    FourDigitYear((if to < 0 then 0 else to) / 1_000_000);
    YearOfMicroseconds(to);
    FarNameOrder(prefix, to);
  }

  /** Where a name with a five- or six-digit year sorts against the last hour of year 9999. */
  lemma FarNameOrder(prefix: string, to: nat)
    requires 10000 <= Gmtime(to / 1_000_000).year < 300000
    ensures Less(HourlyFileName(prefix, to), HourlyFileName(prefix, LAST_TS))
       <==> !(99992 <= Gmtime(to / 1_000_000).year <= 99999)
  {
    hide Gmtime, Less, DateField;
    var a := Gmtime(to / 1_000_000);
    GmtimeIsInverse(to / 1_000_000);
    LastHour();
    CommonHead(prefix + "_", DateField(a), DateField(LAST_HOUR));
    if a.year <= 99999 {
      FiveDigitYear(a);
    } else {
      SixDigitYear(a);
    }
  }

  lemma LastInRange()
    ensures InRange(LAST_TS)
  {
    assert DaysBeforeYear(10000) > 0;
  }

  /**
   A window that ends in a five-digit year is compared as text with four-digit names.
   With a bound in years 10000 to 19699 every file the writer can produce is pruned.
   */
  lemma {:induction false} FarWindowPrunesMatches(prefix: string, ts: int, to: nat)
    requires InRange(ts)
    requires 10000 <= Gmtime(to / 1_000_000).year < 19700
    ensures TimeWindow(None, Some(to)).Contains(ts)
    ensures !NameInWindow(prefix, HourlyFileName(prefix, ts), TimeWindow(None, Some(to)))
  {
    hide Gmtime, Less, DateField;
    TmOf(ts);
    FourDigitYear(to / 1_000_000);
    var a, b := Gmtime(to / 1_000_000), Gmtime(ts / 1_000_000);
    assert Pow10(4) == 10000;
    LongYear(a, 1);
    assert DateField(b) == Decimal(b.year, 4) + AfterYear(b) by {
      YearFirst(b);
    }
    FieldOrder(a.year / 10, b.year, 4, Decimal(a.year, 4)[4..] + AfterYear(a), AfterYear(b));
    CommonHead(prefix + "_", DateField(a), DateField(b));
  }

  /** One such window: the first microsecond after year 9999 as its end prunes every file. */
  lemma FirstFarEnd(prefix: string, ts: int)
    requires InRange(ts)
    ensures var window := TimeWindow(None, Some(LAST_TS + 1));
      window.Contains(ts) && !NameInWindow(prefix, HourlyFileName(prefix, ts), window)
  {
    hide Gmtime, NameInWindow, HourlyFileName;
    YearTenThousand();
    LastInRange();
    FarWindowPrunesMatches(prefix, ts, LAST_TS + 1);
  }

  lemma YearTenThousand()
    ensures LAST_TS + 1 >= 0 && Gmtime((LAST_TS + 1) / 1_000_000).year == 10000
  {
    hide Gmtime;
    LastInRange();
    FourDigitYear(LAST_SECOND + 1);
    var y := Gmtime(LAST_SECOND + 1).year;
    if y > 10000 {
      YearsAscend(10000, y);
      YearStart(LAST_SECOND + 1);
    }
  }

  lemma YearFirst(tm: Tm)
    ensures DateField(tm) == Decimal(tm.year, 4) + AfterYear(tm)
  {
  }

  /** A year of four digits and extra more begins with its leading four. */
  lemma LongYear(tm: Tm, extra: nat)
    requires (extra == 1 && 10000 <= tm.year <= 99999) || (extra == 2 && 100000 <= tm.year <= 999999)
    ensures var lead := if extra == 1 then tm.year / 10 else tm.year / 100;
      && Decimal(lead, 4) == Decimal(tm.year, 4)[..4]
      && |Decimal(tm.year, 4)| == 4 + extra
      && DateField(tm) == Decimal(lead, 4) + (Decimal(tm.year, 4)[4..] + AfterYear(tm))
      && Decimal(tm.year, 4)[3 + extra] == DigitChar(tm.year % 10)
  {
    hide DigitChar, Decimal, AfterYear;
    var lead := if extra == 1 then tm.year / 10 else tm.year / 100;
    assert Pow10(3) == 1000 && Pow10(2) == 100 && Pow10(1) == 10 && Pow10(4) == 10000;
    NoPadding(lead, 3);
    NoPadding(lead, 2);
    DecimalWidth(lead, 4);
    LeadingDigits(tm.year, 4);
    if extra == 2 {
      LeadingDigits(tm.year / 10, 3);
    }
    var year := Decimal(tm.year, 4);
    assert year == year[..4] + year[4..];
  }

  lemma LeadingDigits(n: nat, w: nat)
    requires w > 1
    ensures Decimal(n, w) == Decimal(n / 10, w - 1) + [DigitChar(n % 10)]
  {
  }

  lemma {:induction false} NoPadding(n: nat, w: nat)
    requires w >= 1 && n >= Pow10(w)
    ensures Decimal(n, w) == Decimal(n, w + 1)
  {
    hide DigitChar;
    if w > 1 {
      NoPadding(n / 10, w - 1);
    }
  }

  lemma TwoDigits(n: nat)
    requires n < 100
    ensures Decimal(n, 2) == [DigitChar(n / 10), DigitChar(n % 10)]
  {
  }

  lemma LastHourField()
    ensures AfterYear(LAST_HOUR) == "1231_23.bin"
  {
    hide Decimal;
    TwoDigits(12);
    TwoDigits(31);
    TwoDigits(23);
  }

  lemma FiveDigitYear(a: Tm)
    requires 10000 <= a.year <= 99999 && 1 <= a.month <= 12
    ensures Less(DateField(a), DateField(LAST_HOUR)) <==> a.year < 99992
  {
    hide Less, Decimal, DigitChar;
    assert Pow10(4) == 10000;
    LongYear(a, 1);
    var rest := Decimal(a.year, 4)[4..] + AfterYear(a);
    FieldOrder(a.year / 10, 9999, 4, rest, AfterYear(LAST_HOUR));
    if a.year / 10 == 9999 {
      LastHourField();
      TwoDigits(a.month);
      NinesOrder(a.year % 10, a.month, AfterYear(a)[2..]);
      assert rest == [DigitChar(a.year % 10), DigitChar(a.month / 10), DigitChar(a.month % 10)] + AfterYear(a)[2..];
    }
  }

  lemma NinesOrder(last: nat, month: nat, rest: string)
    requires last < 10 && 1 <= month <= 12
    ensures Less([DigitChar(last), DigitChar(month / 10), DigitChar(month % 10)] + rest, "1231_23.bin") <==> last < 2
  {
    DigitOrder(last, 1);
    DigitOrder(month / 10, 2);
  }

  lemma SixDigitYear(a: Tm)
    requires 100000 <= a.year < 300000
    ensures Less(DateField(a), DateField(LAST_HOUR))
  {
    hide Less, Decimal, DigitChar;
    assert Pow10(4) == 10000;
    LongYear(a, 2);
    FieldOrder(a.year / 100, 9999, 4, Decimal(a.year, 4)[4..] + AfterYear(a), AfterYear(LAST_HOUR));
  }

  // ------------------------------------------------------------------ listing

  ghost predicate Ascending(names: seq<string>) {
    forall i, j :: 0 <= i < j < |names| ==> Less(names[i], names[j])
  }

  /** The selected names of a directory, each once, in order. */
  ghost predicate IsListing(names: seq<string>, prefix: string, present: set<string>, window: TimeWindow) {
    && Ascending(names)
    && forall n :: n in names <==> n in present && NameInWindow(prefix, n, window)
  }

  lemma HeadIsMember(a: seq<string>)
    ensures a == [] || a[0] in a
  {
  }

  /** Order and contents leave no choice. */
  lemma {:induction false} AscendingIsUnique(a: seq<string>, b: seq<string>)
    requires Ascending(a) && Ascending(b)
    requires forall n :: n in a <==> n in b
    ensures a == b
  {
    hide Less;
    HeadIsMember(a);
    HeadIsMember(b);
    if a != [] && b != [] {
      assert a[0] in b && b[0] in a;
      LessIsTotal(a[0], b[0]);
      assert a[0] == b[0];
      var c, d := a[1..], b[1..];
      forall n ensures n in c <==> n in d {
        LessIsTotal(a[0], a[0]);
        assert n in c ==> n in a;
        assert n in d ==> n in b;
      }
      AscendingIsUnique(c, d);
    }
  }

  /** std::sort on distinct names. */
  method SortNames(names: seq<string>) returns (sorted: seq<string>)
    requires forall i, j :: 0 <= i < j < |names| ==> names[i] != names[j]
    ensures Ascending(sorted)
    ensures forall n :: n in sorted <==> n in names
  {
    hide Less;
    sorted := [];
    for k := 0 to |names|
      invariant Ascending(sorted)
      invariant forall n :: n in sorted <==> n in names[..k]
    {
      var x, at := names[k], 0;
      assert x !in names[..k];
      while at < |sorted| && Less(sorted[at], x)
        invariant 0 <= at <= |sorted|
        invariant forall i :: 0 <= i < at ==> Less(sorted[i], x)
      {
        at := at + 1;
      }
      InsertKeepsOrder(sorted, x, at);
      sorted := sorted[..at] + [x] + sorted[at..];
      assert names[..k + 1] == names[..k] + [x];
    }
    assert names[..|names|] == names;
  }

  lemma InsertKeepsOrder(s: seq<string>, x: string, at: nat)
    requires Ascending(s) && x !in s && at <= |s|
    requires forall i :: 0 <= i < at ==> Less(s[i], x)
    requires at < |s| ==> !Less(s[at], x)
    ensures Ascending(s[..at] + [x] + s[at..])
    ensures forall n :: n in s[..at] + [x] + s[at..] <==> n in s || n == x
  {
    hide Less;
    var t := s[..at] + [x] + s[at..];
    forall i | at <= i < |s| ensures Less(x, s[i]) {
      LessIsTotal(s[at], x);
      if i > at {
        LessTransitive(x, s[at], s[i]);
      }
    }
    forall n ensures n in t <==> n in s || n == x {
      if n in s {
        var i :| 0 <= i < |s| && s[i] == n;
        assert t[if i < at then i else i + 1] == n;
      }
      if n == x {
        assert t[at] == x;
      }
    }
  }

  /** Every directory has its listing. */
  lemma {:induction false} ListingOf(prefix: string, present: set<string>, window: TimeWindow) returns (names: seq<string>)
    ensures IsListing(names, prefix, present, window)
    decreases |present|
  {
    hide Less, NameInWindow;
    if present == {} {
      names := [];
    } else {
      var x :| x in present;
      names := ListingOf(prefix, present - {x}, window);
      if NameInWindow(prefix, x, window) {
        var at := PlaceFor(names, x);
        InsertKeepsOrder(names, x, at);
        names := names[..at] + [x] + names[at..];
      }
    }
  }

  lemma {:induction false} PlaceFor(s: seq<string>, x: string) returns (at: nat)
    requires Ascending(s) && x !in s
    ensures at <= |s|
    ensures forall i :: 0 <= i < at ==> Less(s[i], x)
    ensures at < |s| ==> !Less(s[at], x)
  {
    hide Less;
    if s == [] || !Less(s[0], x) {
      at := 0;
    } else {
      at := PlaceFor(s[1..], x);
      at := at + 1;
    }
  }

  method ListRecordFiles(dir: DataDir, prefix: string, window: TimeWindow) returns (names: seq<string>)
    ensures IsListing(names, prefix, dir.files.Keys, window)
  {
    var todo := dir.files.Keys;
    names := [];
    while todo != {}
      invariant todo <= dir.files.Keys
      invariant forall i, j :: 0 <= i < j < |names| ==> names[i] != names[j]
      invariant forall n :: n in names <==> n in dir.files.Keys - todo && NameInWindow(prefix, n, window)
      decreases |todo|
    {
      var name :| name in todo;
      todo := todo - {name};
      if NameInWindow(prefix, name, window) {
        names := names + [name];
      }
    }
    names := SortNames(names);
  }
}
