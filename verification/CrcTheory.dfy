/**
 What the CRC register machine computes: a remainder modulo the generator
 polynomial over GF(2), and why it catches every burst of at most 32 bits.
 */
module CrcTheory {
  import opened Crc32

  type Register = s: seq<bool> | |s| == WIDTH witness Zeros(WIDTH)

  // The generator without its leading x^32, and with it.
  const LOW: bv32 := 0xEDB8_8320

  function PolyLow(): (p: Register) { Coefficients(LOW) }

  function Poly(): (p: seq<bool>) { [true] + PolyLow() }

  // ------------------------------------------------ the machine on bit lists

  /** Multiply by x and reduce. */
  function Shift(s: Register): (r: Register) {
    Xor(s[1..] + [false], if s[0] then PolyLow() else Zeros(WIDTH))
  }

  function Shifts(s: Register, n: nat): (r: Register)
    decreases n
  {
    if n == 0 then s else Shifts(Shift(s), n - 1)
  }

  function FlipTop(s: Register, m: bool): (r: Register) {
    [s[0] != m] + s[1..]
  }

  /** One message bit at a time: the textbook shift register. */
  function Feed(s: Register, bits: seq<bool>): (r: Register)
    decreases bits
  {
    if bits == [] then s else Feed(Shift(FlipTop(s, bits[0])), bits[1..])
  }

  // --------------------------------------- the code's register is that machine

  lemma StepBitCases(c: bv32)
    ensures StepBit(c) == Sum(Half(c), if Odd(c) then LOW else 0)
  {
    assert c & 1 == 1 || c & 1 == 0;
    assert (0 - 1 as bv32) & LOW == LOW;
  }

  lemma {:induction false} ZeroCoefficients(n: nat)
    ensures Bits(0, n) == Zeros(n)
  {
    if n > 0 {
      assert Half(0) == 0 && !Odd(0);
      ZeroCoefficients(n - 1);
    }
  }

  lemma ShiftOut(c: bv32)
    ensures Coefficients(c)[0] == Odd(c)
    ensures Coefficients(Half(c)) == Coefficients(c)[1..] + [false]
  {
    hide Half, Odd;
    FitsRegister(c);
    HighBitsAreZero(c, WIDTH, 1);
    assert Bits(c, WIDTH + 1)[1..] == Bits(Half(c), WIDTH);
  }

  lemma StepBitIsShift(c: bv32)
    ensures Coefficients(StepBit(c)) == Shift(Coefficients(c))
  {
    hide Half, Odd, Sum, StepBit, Bits;
    StepBitCases(c);
    ShiftOut(c);
    if Odd(c) {
      BitsOfSum(Half(c), LOW, WIDTH);
    } else {
      BitsOfSum(Half(c), 0, WIDTH);
      ZeroCoefficients(WIDTH);
    }
  }

  lemma ShiftAt(s: Register, i: nat)
    requires i < WIDTH
    ensures Shift(s)[i] == ((i + 1 < WIDTH && s[i + 1]) != (s[0] && PolyLow()[i]))
  {
  }

  lemma ShiftOfSum(s: Register, m: bool, rest: seq<bool>)
    requires |rest| < WIDTH
    ensures Xor(Shift(FlipTop(s, m)), rest + Zeros(WIDTH - |rest|))
         == Shift(Xor(s, [m] + rest + Zeros(WIDTH - 1 - |rest|)))
  {
    hide PolyLow, Shift;
    var all := Xor(s, [m] + rest + Zeros(WIDTH - 1 - |rest|));
    var left := Xor(Shift(FlipTop(s, m)), rest + Zeros(WIDTH - |rest|));
    forall i | 0 <= i < WIDTH ensures left[i] == Shift(all)[i] {
      ShiftAt(FlipTop(s, m), i);
      ShiftAt(all, i);
    }
  }

  /** Up to 32 bits may be added to the register at once and shifted through afterwards. */
  lemma {:induction false} FeedAtOnce(s: Register, bits: seq<bool>)
    requires |bits| <= WIDTH
    ensures Feed(s, bits) == Shifts(Xor(s, bits + Zeros(WIDTH - |bits|)), |bits|)
    decreases bits
  {
    hide Shift, FlipTop;
    if bits == [] {
      assert Xor(s, bits + Zeros(WIDTH)) == s;
    } else {
      var rest := bits[1..];
      assert [bits[0]] + rest == bits;
      FeedAtOnce(Shift(FlipTop(s, bits[0])), rest);
      ShiftOfSum(s, bits[0], rest);
    }
  }

  lemma {:induction false} FeedConcat(s: Register, a: seq<bool>, b: seq<bool>)
    ensures Feed(s, a + b) == Feed(Feed(s, a), b)
    decreases a
  {
    if a == [] {
      assert a + b == b;
    } else {
      assert (a + b)[1..] == a[1..] + b;
      FeedConcat(Shift(FlipTop(s, a[0])), a[1..], b);
    }
  }

  lemma {:induction false} StepBitsAreShifts(c: bv32, n: nat)
    ensures Coefficients(StepBits(c, n)) == Shifts(Coefficients(c), n)
    decreases n
  {
    hide StepBit, Coefficients, Shift;
    if n > 0 {
      StepBitIsShift(c);
      StepBitsAreShifts(StepBit(c), n - 1);
    }
  }

  lemma StepByteIsFeed(c: bv32, b: byte)
    ensures Coefficients(StepByte(c, b)) == Feed(Coefficients(c), ByteBits(b))
  {
    hide StepBits, Coefficients, Shifts, Feed, ByteBits;
    var eight: nat := |ByteBits(b)|;
    StepBitsAreShifts(Sum(c, b as bv32), eight);
    CoefficientsOfSum(c, b as bv32);
    CoefficientsOfByte(b);
    FeedAtOnce(Coefficients(c), ByteBits(b));
  }

  lemma {:induction false} UpdateIsFeed(c: bv32, data: seq<byte>)
    ensures Coefficients(Update(c, data)) == Feed(Coefficients(c), MessageBits(data))
    decreases data
  {
    hide StepByte, Coefficients, ByteBits;
    if data != [] {
      StepByteIsFeed(c, data[0]);
      UpdateIsFeed(StepByte(c, data[0]), data[1..]);
      FeedConcat(Coefficients(c), ByteBits(data[0]), MessageBits(data[1..]));
    }
  }

  // ------------------------------------------------------ polynomial division

  /** The generator times x^k, or zero. */
  function Term(t: bool, k: nat): (p: seq<bool>)
    ensures |p| == k + WIDTH + 1
  {
    (if t then Poly() else Zeros(WIDTH + 1)) + Zeros(k)
  }

  /** Schoolbook product of q with the generator, highest power first. */
  function TimesPoly(q: seq<bool>): (p: seq<bool>)
    ensures |p| == |q| + WIDTH
    decreases q
  {
    if q == [] then Zeros(WIDTH)
    else Xor(Term(q[0], |q| - 1), [false] + TimesPoly(q[1..]))
  }

  /**
   q and r divide the message polynomial by the generator: the message bits times
   x^32, with the first 32 coefficients complemented, equal q * P + r.
   */
  ghost predicate Divides(bits: seq<bool>, s: Register, q: seq<bool>, r: Register) {
    && |q| == |bits|
    && Xor(bits + Zeros(WIDTH), s + Zeros(|bits|)) == Xor(TimesPoly(q), Zeros(|bits|) + r)
  }

  function Quotient(s: Register, bits: seq<bool>): (q: seq<bool>)
    ensures |q| == |bits|
    decreases bits
  {
    if bits == [] then [] else
      var t := FlipTop(s, bits[0]);
      [t[0]] + Quotient(Shift(t), bits[1..])
  }

  lemma TimesPolyAt(t: bool, q: seq<bool>, i: nat)
    requires i < |q| + 1 + WIDTH
    ensures TimesPoly([t] + q)[i] == ((t && i <= WIDTH && Poly()[i]) != (i > 0 && TimesPoly(q)[i - 1]))
  {
    hide Poly;
    var p := [t] + q;
    assert p[0] == t && p[1..] == q;
    var first, second := Term(t, |q|), [false] + TimesPoly(q);
    assert TimesPoly(p) == Xor(first, second);
    assert first[i] == (t && i <= WIDTH && Poly()[i]);
  }

  /** One more division step: the top coefficient becomes the next quotient bit. */
  lemma DivisionStep(s: Register, m: bool, rest: seq<bool>, q: seq<bool>, r: Register)
    requires Divides(rest, Shift(FlipTop(s, m)), q, r)
    ensures Divides([m] + rest, s, [s[0] != m] + q, r)
  {
    hide PolyLow, Shift, TimesPoly;
    var n := |rest|;
    var s1 := Shift(FlipTop(s, m));
    var left := Xor([m] + rest + Zeros(WIDTH), s + Zeros(n + 1));
    var right := Xor(TimesPoly([s[0] != m] + q), Zeros(n + 1) + r);
    var before, after := Xor(rest + Zeros(WIDTH), s1 + Zeros(n)), Xor(TimesPoly(q), Zeros(n) + r);
    forall i | 0 <= i < n + 1 + WIDTH ensures left[i] == right[i] {
      TimesPolyAt(s[0] != m, q, i);
      if i > 0 {
        assert before[i - 1] == after[i - 1];
        if i <= WIDTH {
          ShiftAt(FlipTop(s, m), i - 1);
        }
      }
    }
  }

  lemma {:induction false} FeedIsRemainder(s: Register, bits: seq<bool>)
    ensures Divides(bits, s, Quotient(s, bits), Feed(s, bits))
    decreases bits
  {
    hide Shift;
    if bits == [] {
      assert Xor(bits + Zeros(WIDTH), s + Zeros(0)) == s;
      assert Xor(TimesPoly([]), Zeros(0) + s) == s;
    } else {
      var t := Shift(FlipTop(s, bits[0]));
      FeedIsRemainder(t, bits[1..]);
      assert [bits[0]] + bits[1..] == bits;
      DivisionStep(s, bits[0], bits[1..], Quotient(t, bits[1..]), Feed(t, bits[1..]));
    }
  }

  /** The generator's leading coefficient is 1, so a product determines its quotient. */
  lemma {:induction false} ProductDeterminesQuotient(p: seq<bool>, q: seq<bool>)
    requires |p| == |q| && TimesPoly(p)[..|p|] == TimesPoly(q)[..|p|]
    ensures p == q
    decreases p
  {
    hide PolyLow;
    if p != [] {
      var x, y := TimesPoly(p), TimesPoly(q);
      assert x[..|p|][0] == y[..|p|][0];
      assert p[0] == x[0] && q[0] == y[0];
      forall i | 0 <= i < |p| - 1 ensures TimesPoly(p[1..])[i] == TimesPoly(q[1..])[i] {
        assert x[..|p|][i + 1] == y[..|p|][i + 1];
      }
      ProductDeterminesQuotient(p[1..], q[1..]);
    }
  }

  lemma RemainderIsUnique(bits: seq<bool>, s: Register, q: seq<bool>, r: Register, q': seq<bool>, r': Register)
    requires Divides(bits, s, q, r) && Divides(bits, s, q', r')
    ensures q == q' && r == r'
  {
    hide TimesPoly;
    var n := |bits|;
    var x, y := Xor(TimesPoly(q), Zeros(n) + r), Xor(TimesPoly(q'), Zeros(n) + r');
    forall i | 0 <= i < n ensures TimesPoly(q)[i] == TimesPoly(q')[i] {
      assert x[i] == y[i];
    }
    ProductDeterminesQuotient(q, q');
    forall i | 0 <= i < WIDTH ensures r[i] == r'[i] {
      assert x[n + i] == y[n + i];
    }
  }

  lemma NibbleUnfolds(c: bv32, c1: bv32, c2: bv32, c3: bv32, k: nat)
    requires c1 == Half(c) && c2 == Half(c1) && c3 == Half(c2)
    ensures Bits(c, k + 4) == [Odd(c), Odd(c1), Odd(c2), Odd(c3)] + Bits(Half(c3), k)
  {
    hide Half, Odd, Bits;
    BitsUnfold(c3, k + 1);
    BitsUnfold(c2, k + 2);
    BitsUnfold(c1, k + 3);
    BitsUnfold(c, k + 4);
  }

  lemma BitsUnfold(c: bv32, n: nat)
    requires n > 0
    ensures Bits(c, n) == [Odd(c)] + Bits(Half(c), n - 1)
  {
  }

  lemma BitsNibble(c: bv32, k: nat)
    ensures Bits(c, k + 4) == [Odd(c), Odd(c >> 1), Odd(c >> 2), Odd(c >> 3)] + Bits(c >> 4, k)
  {
    hide Bits;
    NibbleUnfolds(c, c >> 1, c >> 2, c >> 3, k);
    assert Half(c >> 3) == c >> 4;
  }

  lemma LastBit(c: bv32, k: nat)
    ensures Bits(c, k + 4)[k + 3] == if k == 0 then Odd(c >> 3) else Bits(c >> 4, k)[k - 1]
  {
    hide Odd;
    BitsNibble(c, k);
  }

  /** Section 8 of RFC 1952: the initial and the final register are complemented. */
  function Complement(s: Register): (r: Register) {
    Xor(s, seq(WIDTH, _ => true))
  }

  lemma OnesNibble(c: bv32, k: nat)
    requires c & 0xF == 0xF && Bits(c >> 4, k) == seq(k, _ => true)
    ensures Bits(c, k + 4) == seq(k + 4, _ => true)
  {
    BitsNibble(c, k);
    assert Odd(c) && Odd(c >> 1) && Odd(c >> 2) && Odd(c >> 3);
  }

  lemma OnesRegister()
    ensures Coefficients(0xFFFF_FFFF) == Complement(Zeros(WIDTH))
  {
    var k: nat := WIDTH - 32;  // 0, but not as a literal: with one the verifier unfolds Bits to its end
    OnesNibble(0xF, k);
    OnesNibble(0xFF, k + 4);
    OnesNibble(0xFFF, k + 8);
    OnesNibble(0xFFFF, k + 12);
    OnesNibble(0xF_FFFF, k + 16);
    OnesNibble(0xFF_FFFF, k + 20);
    OnesNibble(0xFFF_FFFF, k + 24);
    OnesNibble(0xFFFF_FFFF, k + 28);
  }

  /** The generator ends in + 1, which makes a shift reversible. */
  lemma GeneratorEndsInOne()
    ensures PolyLow()[WIDTH - 1]
  {
    hide Bits;
    var k: nat := WIDTH - 32;  // as in OnesRegister
    LastBit(0xE, k);
    LastBit(0xED, k + 4);
    LastBit(0xEDB, k + 8);
    LastBit(0xEDB8, k + 12);
    LastBit(0xE_DB88, k + 16);
    LastBit(0xED_B883, k + 20);
    LastBit(0xEDB_8832, k + 24);
    LastBit(LOW, k + 28);
    assert Odd((0xE as bv32) >> 3);
  }

  lemma ComplementTwice(s: Register)
    ensures Complement(Complement(s)) == s
  {
  }

  lemma CoefficientsOfComplement(c: bv32)
    ensures Coefficients(c ^ 0xFFFF_FFFF) == Complement(Coefficients(c))
  {
    hide Coefficients;
    CoefficientsOfSum(c, 0xFFFF_FFFF);
    OnesRegister();
  }

  lemma CrcIsFeed(data: seq<byte>)
    ensures Complement(Coefficients(Crc(data))) == Feed(Complement(Zeros(WIDTH)), MessageBits(data))
  {
    hide Coefficients, Update, Feed, MessageBits, Sum, Complement;
    var ones: bv32 := 0xFFFF_FFFF;
    OnesRegister();
    UpdateIsFeed(ones, data);
    CoefficientsOfComplement(Update(ones, data));
    ComplementTwice(Coefficients(Update(ones, data)));
  }

  /**
   The CRC of a message is the one remainder that goes with it, complemented:
   no other value satisfies the division equation.
   */
  lemma CrcIsPolynomialRemainder(data: seq<byte>, crc: bv32)
    ensures crc == Crc(data) <==>
            exists q :: Divides(MessageBits(data), Complement(Zeros(WIDTH)), q, Complement(Coefficients(crc)))
  {
    hide Coefficients, Crc, Divides, Feed, Quotient, MessageBits, Complement;
    var s, bits := Complement(Zeros(WIDTH)), MessageBits(data);
    CrcIsFeed(data);
    FeedIsRemainder(s, bits);
    if q :| Divides(bits, s, q, Complement(Coefficients(crc))) {
      RemainderIsUnique(bits, s, q, Complement(Coefficients(crc)), Quotient(s, bits), Feed(s, bits));
      ComplementTwice(Coefficients(crc));
      ComplementTwice(Coefficients(Crc(data)));
      CoefficientsInjective(crc, Crc(data));
    }
  }

  // --------------------------------------------------------- error detection

  lemma ShiftInjective(s: Register, t: Register)
    requires Shift(s) == Shift(t)
    ensures s == t
  {
    hide Shift, PolyLow;
    GeneratorEndsInOne();
    ShiftAt(s, WIDTH - 1);
    ShiftAt(t, WIDTH - 1);
    assert s[0] == t[0];
    forall i | 0 < i < WIDTH ensures s[i] == t[i] {
      ShiftAt(s, i - 1);
      ShiftAt(t, i - 1);
    }
  }

  lemma {:induction false} ShiftsInjective(s: Register, t: Register, n: nat)
    requires Shifts(s, n) == Shifts(t, n)
    ensures s == t
    decreases n
  {
    hide Shift;
    if n > 0 {
      ShiftsInjective(Shift(s), Shift(t), n - 1);
      ShiftInjective(s, t);
    }
  }

  lemma {:induction false} FeedInjective(s: Register, t: Register, bits: seq<bool>)
    requires Feed(s, bits) == Feed(t, bits)
    ensures s == t
    decreases bits
  {
    hide Shift;
    if bits != [] {
      var a, b := FlipTop(s, bits[0]), FlipTop(t, bits[0]);
      FeedInjective(Shift(a), Shift(b), bits[1..]);
      ShiftInjective(a, b);
      FlipInjective(s, t, bits[0]);
    }
  }

  lemma FlipInjective(s: Register, t: Register, bit: bool)
    requires FlipTop(s, bit) == FlipTop(t, bit)
    ensures s == t
  {
    var a, b := FlipTop(s, bit), FlipTop(t, bit);
    assert a[0] == b[0];
    assert s == [s[0]] + a[1..] && t == [t[0]] + b[1..];
  }

  lemma BurstChangesRegister(s: Register, a: seq<bool>, b: seq<bool>)
    requires |a| == |b| <= WIDTH && a != b
    ensures Feed(s, a) != Feed(s, b)
  {
    hide Shifts, Feed;
    FeedAtOnce(s, a);
    FeedAtOnce(s, b);
    var x, y := Xor(s, a + Zeros(WIDTH - |a|)), Xor(s, b + Zeros(WIDTH - |b|));
    if Feed(s, a) == Feed(s, b) {
      ShiftsInjective(x, y, |a|);
      forall i | 0 <= i < |a| ensures a[i] == b[i] {
        assert x[i] == y[i];
      }
    }
  }

  /** The two bit strings agree outside the window [from, from + width). */
  ghost predicate DifferOnlyIn(a: seq<bool>, b: seq<bool>, from: nat, width: nat) {
    && |a| == |b|
    && from + width <= |a|
    && a[..from] == b[..from]
    && a[from + width..] == b[from + width..]
  }

  /** Two messages that differ only inside one window of at most 32 bits have different CRCs. */
  lemma BurstIsDetected(a: seq<byte>, b: seq<byte>, from: nat, width: nat)
    requires DifferOnlyIn(MessageBits(a), MessageBits(b), from, width)
    requires width <= WIDTH && a != b
    ensures Crc(a) != Crc(b)
  {
    hide Feed, Coefficients, Update, MessageBits;
    var x, y := MessageBits(a), MessageBits(b);
    var ones: bv32 := 0xFFFF_FFFF;
    var s, mid := Coefficients(ones), from + width;
    assert x == x[..from] + x[from..mid] + x[mid..];
    assert y == y[..from] + y[from..mid] + y[mid..];
    SameLength(a, b);
    if x[from..mid] == y[from..mid] {
      MessageBitsInjective(a, b);
    }
    FeedConcat(s, x[..from] + x[from..mid], x[mid..]);
    FeedConcat(s, y[..from] + y[from..mid], y[mid..]);
    FeedConcat(s, x[..from], x[from..mid]);
    FeedConcat(s, y[..from], y[from..mid]);
    BurstChangesRegister(Feed(s, x[..from]), x[from..mid], y[from..mid]);
    if Feed(s, x) == Feed(s, y) {
      FeedInjective(Feed(Feed(s, x[..from]), x[from..mid]), Feed(Feed(s, y[..from]), y[from..mid]), x[mid..]);
    }
    UpdateIsFeed(ones, a);
    UpdateIsFeed(ones, b);
    ComplementInjective(Update(ones, a), Update(ones, b));
  }

  lemma SameLength(a: seq<byte>, b: seq<byte>)
    requires |MessageBits(a)| == |MessageBits(b)|
    ensures |a| == |b|
  {
  }

  lemma ComplementInjective(c: bv32, d: bv32)
    requires c != d
    ensures c ^ 0xFFFF_FFFF != d ^ 0xFFFF_FFFF
  {
  }

  /** In particular: a change confined to four adjacent bytes, whatever the change is. */
  lemma FourBytesAreDetected(a: seq<byte>, b: seq<byte>, from: nat, count: nat)
    requires |a| == |b| && from + count <= |a| && count <= 4 && a != b
    requires a[..from] == b[..from] && a[from + count..] == b[from + count..]
    ensures Crc(a) != Crc(b)
  {
    hide MessageBits;
    var mid := from + count;
    BitsOfParts(a, from, mid);
    BitsOfParts(b, from, mid);
    BurstIsDetected(a, b, 8 * from, 8 * count);
  }

  lemma BitsOfParts(m: seq<byte>, from: nat, mid: nat)
    requires from <= mid <= |m|
    ensures MessageBits(m)[..8 * from] == MessageBits(m[..from])
    ensures MessageBits(m)[8 * mid..] == MessageBits(m[mid..])
  {
    hide MessageBits;
    assert m == m[..from] + m[from..] && m == m[..mid] + m[mid..];
    MessageBitsConcat(m[..from], m[from..]);
    MessageBitsConcat(m[..mid], m[mid..]);
  }

  // ------------------------------------------------------------- against known facts

  function Quad(c: bv32): (s: seq<bool>)
    ensures |s| == 4
  {
    [Odd(c), Odd(c >> 1), Odd(c >> 2), Odd(c >> 3)]
  }

  /** The low eight bits of a register, lowest first. */
  function Octet(c: bv32): (s: seq<bool>)
    ensures |s| == 8
  {
    [Odd(c), Odd(c >> 1), Odd(c >> 2), Odd(c >> 3), Odd(c >> 4), Odd(c >> 5), Odd(c >> 6), Odd(c >> 7)]
  }

  lemma TwoQuads(c: bv32)
    ensures Octet(c) == Quad(c) + Quad(c >> 4) && c >> 4 >> 4 == c >> 8
  {
    hide Odd;
    assert c >> 4 >> 1 == c >> 5 && c >> 4 >> 2 == c >> 6 && c >> 4 >> 3 == c >> 7 && c >> 4 >> 4 == c >> 8;
  }

  lemma BitsQuad(c: bv32, k: nat)
    ensures Bits(c, k + 4) == Quad(c) + Bits(c >> 4, k)
  {
    hide Bits, Odd;
    BitsNibble(c, k);
  }

  lemma BitsOctet(c: bv32, k: nat)
    ensures Bits(c, k + 8) == Octet(c) + Bits(c >> 8, k)
  {
    hide Bits, Octet, Quad;
    TwoQuads(c);
    BitsQuad(c, k + 4);
    BitsQuad(c >> 4, k);
    Regroup(Quad(c), Quad(c >> 4), Bits(c >> 8, k));
  }

  lemma Regroup(a: seq<bool>, b: seq<bool>, c: seq<bool>)
    ensures a + (b + c) == a + b + c
  {
  }

  /** Bit i of a byte is the i-th the CRC consumes. */
  lemma ByteBitsAre(b: byte)
    ensures ByteBits(b) == Octet(b as bv32)
  {
    hide Bits, Octet;
    BitsOctet(b as bv32, WIDTH - 8);
    OctetSize(b as bv32);
  }

  lemma OctetSize(c: bv32)
    ensures |Octet(c)| == 8
  {
  }

  /** The register of four octets, lowest first. */
  lemma FourOctets(c: bv32)
    ensures Coefficients(c) == Octet(c) + (Octet(c >> 8) + (Octet(c >> 16) + Octet(c >> 24)))
  {
    hide Bits, Octet;
    var k: nat := WIDTH - 32;  // as in OnesRegister
    BitsOctet(c, k + 24);
    BitsOctet(c >> 8, k + 16);
    BitsOctet(c >> 16, k + 8);
    BitsOctet(c >> 24, k);
    assert c >> 8 >> 8 == c >> 16 && c >> 16 >> 8 == c >> 24;
    NoBits(c >> 24 >> 8);
    assert Octet(c >> 24) + [] == Octet(c >> 24);
  }

  lemma NoBits(c: bv32)
    ensures Bits(c, WIDTH - 32) == []
  {
  }

  /** The exponents of the generator, as the standard polynomial is written. */
  const EXPONENTS: set<int> := {32, 26, 23, 22, 16, 12, 11, 10, 8, 7, 5, 4, 2, 1, 0}

  /** Poly is x^32 + x^26 + ... + x + 1, highest power first. */
  lemma GeneratorExponents(e: nat)
    requires e <= WIDTH
    ensures Poly()[WIDTH - e] <==> e in EXPONENTS
  {
    hide Bits, Octet;
    FourOctets(LOW);
    assert LOW >> 8 == 0xED_B883 && LOW >> 16 == 0xEDB8 && LOW >> 24 == 0xED;
    GeneratorOctets();
    var top, high, low, last := Octet(LOW), Octet(0xED_B883), Octet(0xEDB8), Octet(0xED);
    assert PolyLow() == top + (high + (low + last));
  }

  lemma GeneratorOctets()
    ensures Octet(LOW) == [false, false, false, false, false, true, false, false]
    ensures Octet(0xED_B883) == [true, true, false, false, false, false, false, true]
    ensures Octet(0xEDB8) == [false, false, false, true, true, true, false, true]
    ensures Octet(0xED) == [true, false, true, true, false, true, true, true]
  {
  }
}
