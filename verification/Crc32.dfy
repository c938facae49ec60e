/**
 The IEEE CRC-32 of src/storage/record_integrity.h, as the register machine the
 code runs, and its bit-level meaning.

 A 32-bit register stands for a polynomial of degree below 32 over GF(2): bit j
 is the coefficient of x^(31-j).  Bit lists are written from the highest power
 down, so the bytes of a message contribute their bits least significant first.
 */
module Crc32 {

  type byte = bv8

  // ---------------------------------------------------------------- the code

  function StepBit(crc: bv32): bv32 {
    (crc >> 1) ^ (0xEDB8_8320 & (0 - (crc & 1)))
  }

  function StepBits(crc: bv32, n: nat): bv32
    decreases n
  {
    if n == 0 then crc else StepBits(StepBit(crc), n - 1)
  }

  function StepByte(crc: bv32, b: byte): bv32 {
    StepBits(crc ^ (b as bv32), 8)
  }

  function Update(crc: bv32, data: seq<byte>): bv32
    decreases data
  {
    if data == [] then crc else Update(StepByte(crc, data[0]), data[1..])
  }

  function Crc(data: seq<byte>): bv32 {
    Update(0xFFFF_FFFF, data) ^ 0xFFFF_FFFF
  }

  method Crc32Ieee(data: seq<byte>) returns (r: bv32)
    ensures r == Crc(data)
  {
    var crc: bv32 := 0xFFFF_FFFF;
    for i := 0 to |data|
      invariant Update(crc, data[i..]) == Update(0xFFFF_FFFF, data)
    {
      ghost var before := crc;
      crc := crc ^ (data[i] as bv32);
      for b := 0 to 8
        invariant StepBits(crc, 8 - b) == StepByte(before, data[i])
      {
        var mask: bv32 := 0 - (crc & 1);
        crc := (crc >> 1) ^ (0xEDB8_8320 & mask);
      }
      assert data[i..][1..] == data[i + 1..];
    }
    assert data[|data|..] == [];
    r := crc ^ 0xFFFF_FFFF;
  }

  /** The register is all the state there is: chunks may be fed one after the other. */
  lemma {:induction false} UpdateConcat(crc: bv32, a: seq<byte>, b: seq<byte>)
    ensures Update(crc, a + b) == Update(Update(crc, a), b)
    decreases a
  {
    if a == [] {
      assert a + b == b;
    } else {
      assert (a + b)[1..] == a[1..] + b;
      UpdateConcat(StepByte(crc, a[0]), a[1..], b);
    }
  }

  // ------------------------------------------------------- bits of a register

  const WIDTH: nat := 32

  function Half(c: bv32): bv32 { c >> 1 }

  predicate Odd(c: bv32) { c & 1 == 1 }

  function Sum(c: bv32, d: bv32): bv32 { c ^ d }

  function Zeros(n: nat): (s: seq<bool>)
    ensures |s| == n && forall i :: 0 <= i < n ==> !s[i]
  {
    seq(n, _ => false)
  }

  /** Sum over GF(2), coefficient by coefficient. */
  function Xor(a: seq<bool>, b: seq<bool>): (s: seq<bool>)
    requires |a| == |b|
    ensures |s| == |a| && forall i :: 0 <= i < |a| ==> s[i] == (a[i] != b[i])
  {
    seq(|a|, i requires 0 <= i < |a| => a[i] != b[i])
  }

  /** The n low bits of c, lowest first. */
  function Bits(c: bv32, n: nat): (s: seq<bool>)
    ensures |s| == n
    decreases n
  {
    if n == 0 then [] else [Odd(c)] + Bits(Half(c), n - 1)
  }

  /** The coefficients of the register's polynomial, highest power first. */
  function Coefficients(c: bv32): (s: seq<bool>)
    ensures |s| == WIDTH
  {
    Bits(c, WIDTH)
  }

  /** The eight bits of a byte in the order the CRC consumes them. */
  function ByteBits(b: byte): (s: seq<bool>)
    ensures |s| == 8
  {
    Bits(b as bv32, WIDTH)[..8]
  }

  function MessageBits(data: seq<byte>): (s: seq<bool>)
    ensures |s| == 8 * |data|
  {
    if data == [] then [] else ByteBits(data[0]) + MessageBits(data[1..])
  }

  /** c has no bit at position k or above. */
  ghost predicate Fits(c: bv32, k: nat)
    decreases k
  {
    if k == 0 then c == 0 else Fits(Half(c), k - 1)
  }

  lemma FitsOctet(c: bv32, k: nat)
    requires Fits(c >> 8, k)
    ensures Fits(c, k + 8)
  {
    assert Fits(Half(c >> 7), k) by { assert Half(c >> 7) == c >> 8; }
    assert Fits(Half(c >> 6), k + 1) by { assert Half(c >> 6) == c >> 7; }
    assert Fits(Half(c >> 5), k + 2) by { assert Half(c >> 5) == c >> 6; }
    assert Fits(Half(c >> 4), k + 3) by { assert Half(c >> 4) == c >> 5; }
    assert Fits(Half(c >> 3), k + 4) by { assert Half(c >> 3) == c >> 4; }
    assert Fits(Half(c >> 2), k + 5) by { assert Half(c >> 2) == c >> 3; }
    assert Fits(Half(c >> 1), k + 6) by { assert Half(c >> 1) == c >> 2; }
    assert Fits(Half(c), k + 7) by { assert Half(c) == c >> 1; }
  }

  lemma FitsRegister(c: bv32)
    ensures Fits(c, WIDTH)
  {
    var k: nat := WIDTH - 32;  // 0, but not as a literal: with one the verifier unfolds Fits to its end
    assert c >> 24 >> 8 == 0 && c >> 16 >> 8 == c >> 24 && c >> 8 >> 8 == c >> 16;
    FitsOctet(c >> 24, k);
    FitsOctet(c >> 16, k + 8);
    FitsOctet(c >> 8, k + 16);
    FitsOctet(c, k + 24);
  }

  lemma FitsByte(b: byte)
    ensures Fits(b as bv32, 8)
  {
    assert (b as bv32) >> 8 == 0;
    FitsOctet(b as bv32, 0);
  }

  lemma {:induction false} HighBitsAreZero(c: bv32, k: nat, m: nat)
    requires Fits(c, k)
    ensures Bits(c, k + m) == Bits(c, k) + Zeros(m)
    decreases k + m
  {
    if k > 0 {
      HighBitsAreZero(Half(c), k - 1, m);
    } else if m > 0 {
      assert Half(0) == 0 && !Odd(0);
      HighBitsAreZero(Half(c), 0, m - 1);
    }
  }

  lemma SplitSum(c: bv32, d: bv32)
    ensures Half(Sum(c, d)) == Sum(Half(c), Half(d))
    ensures Odd(Sum(c, d)) == (Odd(c) != Odd(d))
  {
  }

  lemma SplitEqual(c: bv32, d: bv32)
    requires Odd(c) == Odd(d) && Half(c) == Half(d)
    ensures c == d
  {
  }

  lemma {:induction false} BitsOfSum(c: bv32, d: bv32, n: nat)
    ensures Bits(Sum(c, d), n) == Xor(Bits(c, n), Bits(d, n))
    decreases n
  {
    hide Half, Odd, Sum;
    if n > 0 {
      SplitSum(c, d);
      BitsOfSum(Half(c), Half(d), n - 1);
    }
  }

  lemma CoefficientsOfSum(c: bv32, d: bv32)
    ensures Coefficients(Sum(c, d)) == Xor(Coefficients(c), Coefficients(d))
  {
    BitsOfSum(c, d, WIDTH);
  }

  lemma {:induction false} BitsInjective(c: bv32, d: bv32, k: nat)
    requires Fits(c, k) && Fits(d, k) && Bits(c, k) == Bits(d, k)
    ensures c == d
    decreases k
  {
    hide Half, Odd;
    if k > 0 {
      assert Bits(c, k)[0] == Bits(d, k)[0];
      assert Bits(Half(c), k - 1) == Bits(c, k)[1..] == Bits(d, k)[1..] == Bits(Half(d), k - 1);
      BitsInjective(Half(c), Half(d), k - 1);
      SplitEqual(c, d);
    }
  }

  lemma CoefficientsInjective(c: bv32, d: bv32)
    requires Coefficients(c) == Coefficients(d)
    ensures c == d
  {
    FitsRegister(c);
    FitsRegister(d);
    BitsInjective(c, d, WIDTH);
  }

  /** A byte widened to the register: its bits, then 24 zeros. */
  lemma CoefficientsOfByte(b: byte)
    ensures Coefficients(b as bv32) == ByteBits(b) + Zeros(WIDTH - 8)
  {
    FitsByte(b);
    var eight: nat := WIDTH - 24;  // a literal would be unfolded
    HighBitsAreZero(b as bv32, eight, WIDTH - eight);
  }

  lemma ByteBitsInjective(a: byte, b: byte)
    requires ByteBits(a) == ByteBits(b)
    ensures a == b
  {
    CoefficientsOfByte(a);
    CoefficientsOfByte(b);
    CoefficientsInjective(a as bv32, b as bv32);
    assert a as bv32 == b as bv32 ==> a == b;
  }

  lemma {:induction false} MessageBitsInjective(a: seq<byte>, b: seq<byte>)
    requires |a| == |b| && MessageBits(a) == MessageBits(b)
    ensures a == b
  {
    if a != [] {
      var x, y := MessageBits(a), MessageBits(b);
      assert ByteBits(a[0]) == x[..8] == y[..8] == ByteBits(b[0]);
      assert MessageBits(a[1..]) == x[8..] == y[8..] == MessageBits(b[1..]);
      ByteBitsInjective(a[0], b[0]);
      MessageBitsInjective(a[1..], b[1..]);
      assert a == [a[0]] + a[1..] && b == [b[0]] + b[1..];
    }
  }

  lemma {:induction false} MessageBitsConcat(a: seq<byte>, b: seq<byte>)
    ensures MessageBits(a + b) == MessageBits(a) + MessageBits(b)
  {
    if a == [] {
      assert a + b == b;
    } else {
      assert (a + b)[1..] == a[1..] + b;
      MessageBitsConcat(a[1..], b);
    }
  }

  // ------------------------------------------------------------- against known facts

  /** The catalogued check value of this CRC: that of the digits 1 to 9 in ASCII. */
  lemma CheckValue()
    ensures Crc([0x31, 0x32, 0x33, 0x34, 0x35, 0x36, 0x37, 0x38, 0x39]) == 0xCBF4_3926
  {
    assert StepByte(0xFFFFFFFF, 0x31) == 0x7C231048;
    assert StepByte(0x7C231048, 0x32) == 0xB0ACBB32;
    assert StepByte(0xB0ACBB32, 0x33) == 0x77B79C2D;
    assert StepByte(0x77B79C2D, 0x34) == 0x641C1F5C;
    assert StepByte(0x641C1F5C, 0x35) == 0x340AC5E3;
    assert StepByte(0x340AC5E3, 0x36) == 0xF68D2C9E;
    assert StepByte(0xF68D2C9E, 0x37) == 0xAFFC9660;
    assert StepByte(0xAFFC9660, 0x38) == 0x651F2550;
    assert StepByte(0x651F2550, 0x39) == 0x340BC6D9;
  }
}
