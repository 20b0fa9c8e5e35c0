/** The 16-bit CRC of the update protocol: the nibble-table loops of the device and of the host,
    against schoolbook division by the polynomial x^16 + x^12 + x^5 + 1 over GF(2). */
module Crc16 {
  type byte = bv8

  /** The byte of a number. */
  function Byte(n: nat): (b: byte)
    requires n < 0x100
    ensures b as nat == n
  {
    if n == 0 then 0
    else
      NextByte(Byte(n - 1));
      Byte(n - 1) + 1
  }

  lemma NextByte(b: byte)
    ensures (b + 1) as nat == if b as nat == 0xFF then 0 else b as nat + 1
  {
  }

  function CrcTable(i: bv16): bv16 {
    if i == 0 then 0x0000 else if i == 1 then 0x1021 else if i == 2 then 0x2042 else if i == 3 then 0x3063
    else if i == 4 then 0x4084 else if i == 5 then 0x50a5 else if i == 6 then 0x60c6 else if i == 7 then 0x70e7
    else if i == 8 then 0x8108 else if i == 9 then 0x9129 else if i == 10 then 0xa14a else if i == 11 then 0xb16b
    else if i == 12 then 0xc18c else if i == 13 then 0xd1ad else if i == 14 then 0xe1ce else 0xf1ef
  }

  function Lookup(i: bv16, crc: bv16): bv16 {
    CrcTable(i) ^ (crc << 4)
  }

  function TableIndex(top: bv16, n: bv16): bv16 {
    (top ^ n) & 0x0F
  }

  /** One table lookup: shift the low nibble of n into crc. */
  function NibbleStep(crc: bv16, n: bv16): bv16 {
    Lookup(TableIndex(crc >> 12, n), crc)
  }

  function ByteStep(crc: bv16, d: byte): bv16 {
    NibbleStep(NibbleStep(crc, (d >> 4) as bv16), d as bv16)
  }

  function CrcFrom(crc: bv16, data: seq<byte>): bv16
    decreases |data|
  {
    if data == [] then crc else CrcFrom(ByteStep(crc, data[0]), data[1..])
  }

  function Crc(data: seq<byte>): bv16 {
    CrcFrom(0, data)
  }

  lemma {:induction false} CrcFromConcat(crc: bv16, a: seq<byte>, b: seq<byte>)
    ensures CrcFrom(crc, a + b) == CrcFrom(CrcFrom(crc, a), b)
    decreases |a|
  {
    hide ByteStep;
    if a == [] {
      assert a + b == b;
    } else {
      assert (a + b)[1..] == a[1..] + b;
      CrcFromConcat(ByteStep(crc, a[0]), a[1..], b);
    }
  }

  // ---------------------------------------------------------------- the two implementations

  /** CalculateCrc of the device. */
  method CalculateCrc(data: seq<byte>) returns (crc: bv16)
    ensures crc == Crc(data)
  {
    hide NibbleStep;
    crc := 0;
    for k := 0 to |data|
      invariant CrcFrom(crc, data[k..]) == Crc(data)
    {
      assert data[k..][1..] == data[k + 1..];
      crc := NibbleStep(crc, (data[k] >> 4) as bv16);
      crc := NibbleStep(crc, data[k] as bv16);
    }
  }

  /** A char of the host, promoted to a 32-bit int: the sign bit fills the upper bits. */
  function SignExtend(d: byte): bv32 {
    if d & 0x80 != 0 then (d as bv32) | 0xFFFF_FF00 else d as bv32
  }

  /** >> 4 on a 32-bit int. */
  function ShiftRight4(x: bv32): bv32 {
    if x & 0x8000_0000 != 0 then (x >> 4) | 0xF000_0000 else x >> 4
  }

  function TableIndexHost(top: bv16, x: bv32): bv16 {
    ((top as bv32 ^ x) & 0x0F) as bv16
  }

  /** One table lookup of the host, which indexes the table with a promoted char. */
  function NibbleStepHost(crc: bv16, x: bv32): bv16 {
    Lookup(TableIndexHost(crc >> 12, x), crc)
  }

  lemma SignBitsMaskedOff(top: bv16, d: byte)
    ensures TableIndexHost(top, ShiftRight4(SignExtend(d))) == TableIndex(top, (d >> 4) as bv16)
    ensures TableIndexHost(top, SignExtend(d)) == TableIndex(top, d as bv16)
  {
  }

  /** Only the low nibble of the promoted char is used, and the sign bits never reach it. */
  lemma SignBitsVanish(crc: bv16, d: byte)
    ensures NibbleStepHost(crc, ShiftRight4(SignExtend(d))) == NibbleStep(crc, (d >> 4) as bv16)
    ensures NibbleStepHost(crc, SignExtend(d)) == NibbleStep(crc, d as bv16)
  {
    hide Lookup, SignExtend, ShiftRight4, TableIndex, TableIndexHost;
    SignBitsMaskedOff(crc >> 12, d);
  }

  /** CalculateCrc of the host, whose data are signed chars: the function the device computes. */
  method CalculateCrcHost(data: seq<byte>) returns (crc: bv16)
    ensures crc == Crc(data)
  {
    hide NibbleStep, NibbleStepHost;
    crc := 0;
    for k := 0 to |data|
      invariant CrcFrom(crc, data[k..]) == Crc(data)
    {
      assert data[k..][1..] == data[k + 1..];
      SignBitsVanish(crc, data[k]);
      ghost var before := crc;
      crc := NibbleStepHost(crc, ShiftRight4(SignExtend(data[k])));
      SignBitsVanish(crc, data[k]);
      crc := NibbleStepHost(crc, SignExtend(data[k]));
      assert crc == ByteStep(before, data[k]);
    }
  }

  // ---------------------------------------------------------------- division

  function BitValue(bit: bool): bv16 {
    if bit then 1 else 0
  }

  /** Bring down one bit of the dividend; subtract the generator, x^16 + 0x1021, if the degree reaches 16. */
  function DivStep(r: bv16, bit: bool): bv16 {
    var shifted := (r << 1) | BitValue(bit);
    if r & 0x8000 != 0 then shifted ^ 0x1021 else shifted
  }

  /** The remainder of the dividend `bits` (highest degree first), given the remainder so far. */
  function Divide(r: bv16, bits: seq<bool>): bv16
    decreases |bits|
  {
    if bits == [] then r else Divide(DivStep(r, bits[0]), bits[1..])
  }

  function NibbleBits(n: bv16): seq<bool> {
    [n & 8 != 0, n & 4 != 0, n & 2 != 0, n & 1 != 0]
  }

  /** The message as a polynomial, highest degree first. */
  function Bits(data: seq<byte>): seq<bool> {
    if data == [] then []
    else NibbleBits((data[0] >> 4) as bv16) + NibbleBits(data[0] as bv16) + Bits(data[1..])
  }

  function Zeros(n: nat): seq<bool> {
    if n == 0 then [] else [false] + Zeros(n - 1)
  }

  // The same steps without case distinctions: the table is multiplication by the generator.

  function TimesGenerator(t: bv16): bv16 {
    t ^ (t << 5) ^ (t << 12)
  }

  lemma NibbleForm(crc: bv16, n: bv16)
    ensures NibbleStep(crc, n) == TimesGenerator(TableIndex(crc >> 12, n)) ^ (crc << 4)
  {
    TableForm(TableIndex(crc >> 12, n));
    hide CrcTable;
  }

  lemma TableForm(i: bv16)
    requires i <= 15
    ensures CrcTable(i) == TimesGenerator(i)
  {
  }

  /** Addition of polynomials over GF(2). */
  function Plus(a: bv16, b: bv16): bv16 {
    a ^ b
  }

  /** Multiplication by x, reduced by the generator. */
  function TimesX(r: bv16): bv16 {
    (r << 1) ^ (r >> 15) ^ ((r >> 15) << 5) ^ ((r >> 15) << 12)
  }

  lemma DivBits(r: bv16, bit: bool)
    ensures DivStep(r, bit) == ((r << 1) ^ (r >> 15) ^ ((r >> 15) << 5) ^ ((r >> 15) << 12)) ^ BitValue(bit)
  {
    if bit {
      if r & 0x8000 != 0 {} else {}
    } else {
      if r & 0x8000 != 0 {} else {}
    }
  }

  lemma DivForm(r: bv16, bit: bool)
    ensures DivStep(r, bit) == Plus(TimesX(r), BitValue(bit))
  {
    DivBits(r, bit);
    hide DivStep, BitValue;
    assert TimesX(r) == (r << 1) ^ (r >> 15) ^ ((r >> 15) << 5) ^ ((r >> 15) << 12);
    hide TimesX;
  }

  lemma TimesXBits(a: bv16, b: bv16)
    ensures TimesX(a ^ b) == TimesX(a) ^ TimesX(b)
  {
  }

  lemma TimesXPlus(a: bv16, b: bv16)
    ensures TimesX(Plus(a, b)) == Plus(TimesX(a), TimesX(b))
  {
    hide TimesX;
    TimesXBits(a, b);
  }

  lemma SerialBits(r: bv16)
    ensures (r << 1) ^ (r >> 15) ^ 1 ^ (((r >> 15) ^ 1) << 5) ^ (((r >> 15) ^ 1) << 12)
         == (r << 1) ^ (r >> 15) ^ ((r >> 15) << 5) ^ ((r >> 15) << 12) ^ 0x1021
  {
  }

  lemma SerialForm(r: bv16)
    ensures SerialXor(r, 0) == TimesX(r) && SerialXor(r, 1) == Plus(TimesX(r), 0x1021)
  {
    SerialBits(r);
  }

  /** Divide, for a dividend that is multiplied by x^16. */
  function Absorb(r: bv16, bits: seq<bool>): bv16
    decreases |bits|
  {
    if bits == [] then r else Absorb(SerialStep(r, bits[0]), bits[1..])
  }

  function SerialStep(r: bv16, bit: bool): bv16 {
    SerialXor(r, BitValue(bit))
  }

  function SerialXor(r: bv16, b: bv16): bv16 {
    (r << 1) ^ TimesGenerator((r >> 15) ^ b)
  }

  lemma FourSteps(crc: bv16, n: bv16)
    ensures TimesGenerator(TableIndex(crc >> 12, n)) ^ (crc << 4)
         == SerialXor(SerialXor(SerialXor(SerialXor(crc, (n >> 3) & 1), (n >> 2) & 1), (n >> 1) & 1), n & 1)
  {
  }

  lemma BitForm(n: bv16)
    ensures BitValue(n & 8 != 0) == (n >> 3) & 1 && BitValue(n & 4 != 0) == (n >> 2) & 1
    ensures BitValue(n & 2 != 0) == (n >> 1) & 1 && BitValue(n & 1 != 0) == n & 1
  {
  }

  lemma AbsorbFour(r: bv16, bits: seq<bool>)
    requires |bits| == 4
    ensures Absorb(r, bits) == SerialStep(SerialStep(SerialStep(SerialStep(r, bits[0]), bits[1]), bits[2]), bits[3])
  {
    hide SerialStep;
    var r1 := SerialStep(r, bits[0]);
    var r2 := SerialStep(r1, bits[1]);
    var r3 := SerialStep(r2, bits[2]);
    assert bits[1..][1..] == bits[2..] && bits[2..][1..] == bits[3..];
    assert Absorb(r3, bits[3..]) == SerialStep(r3, bits[3]);
    assert Absorb(r, bits) == Absorb(r1, bits[1..]) == Absorb(r2, bits[2..]) == Absorb(r3, bits[3..]);
  }

  lemma NibbleIsSerial(crc: bv16, n: bv16)
    ensures NibbleStep(crc, n) == Absorb(crc, NibbleBits(n))
  {
    AbsorbFour(crc, NibbleBits(n));
    NibbleForm(crc, n);
    BitForm(n);
    FourSteps(crc, n);
    hide NibbleStep, SerialXor, TimesGenerator, BitValue, Absorb;
  }

  lemma {:induction false} AbsorbConcat(r: bv16, a: seq<bool>, b: seq<bool>)
    ensures Absorb(r, a + b) == Absorb(Absorb(r, a), b)
    decreases |a|
  {
    hide SerialStep;
    if a == [] {
      assert a + b == b;
    } else {
      assert (a + b)[1..] == a[1..] + b;
      AbsorbConcat(SerialStep(r, a[0]), a[1..], b);
    }
  }

  lemma {:induction false} CrcAbsorbsBits(crc: bv16, data: seq<byte>)
    ensures CrcFrom(crc, data) == Absorb(crc, Bits(data))
    decreases |data|
  {
    hide NibbleStep, NibbleBits, SerialStep;
    if data != [] {
      var hi, lo, rest := NibbleBits((data[0] >> 4) as bv16), NibbleBits(data[0] as bv16), Bits(data[1..]);
      NibbleIsSerial(crc, (data[0] >> 4) as bv16);
      NibbleIsSerial(NibbleStep(crc, (data[0] >> 4) as bv16), data[0] as bv16);
      AbsorbConcat(crc, hi, lo);
      AbsorbConcat(crc, hi + lo, rest);
      CrcAbsorbsBits(ByteStep(crc, data[0]), data[1..]);
    }
  }

  /** DivStep n times, bringing down zeros. */
  function Shift(r: bv16, n: nat): bv16
    decreases n
  {
    if n == 0 then r else Shift(DivStep(r, false), n - 1)
  }

  lemma PlusZero(a: bv16)
    ensures Plus(a, 0) == a
  {
  }

  lemma DivStepPlus(a: bv16, b: bv16)
    ensures DivStep(Plus(a, b), false) == Plus(DivStep(a, false), DivStep(b, false))
    ensures DivStep(a, true) == Plus(DivStep(a, false), 1)
    ensures SerialStep(a, false) == DivStep(a, false) && SerialStep(a, true) == Plus(DivStep(a, false), 0x1021)
  {
    hide DivStep, TimesX, Plus, SerialXor;
    DivForm(a, false);
    DivForm(b, false);
    DivForm(Plus(a, b), false);
    DivForm(a, true);
    PlusZero(TimesX(a));
    PlusZero(TimesX(b));
    PlusZero(TimesX(Plus(a, b)));
    TimesXPlus(a, b);
    SerialForm(a);
  }

  lemma {:induction false} ShiftPlus(a: bv16, b: bv16, n: nat)
    ensures Shift(Plus(a, b), n) == Plus(Shift(a, n), Shift(b, n))
    decreases n
  {
    hide DivStep, Plus;
    if n > 0 {
      DivStepPlus(a, b);
      ShiftPlus(DivStep(a, false), DivStep(b, false), n - 1);
    }
  }

  lemma {:induction false} ShiftOneMore(r: bv16, n: nat)
    ensures Shift(DivStep(r, false), n) == DivStep(Shift(r, n), false)
    decreases n
  {
    hide DivStep;
    if n > 0 {
      ShiftOneMore(DivStep(r, false), n - 1);
    }
  }

  lemma {:induction false} DivideZeros(r: bv16, n: nat)
    ensures Divide(r, Zeros(n)) == Shift(r, n)
    decreases n
  {
    hide DivStep;
    if n > 0 {
      assert Zeros(n)[1..] == Zeros(n - 1);
      DivideZeros(DivStep(r, false), n - 1);
    }
  }

  lemma ShiftOne()
    ensures Shift(1, 16) == 0x1021
  {
    assert Shift(1, 16) == Shift(0x0010, 12) == Shift(0x0100, 8) == Shift(0x1000, 4) == Shift(0x8000, 1);
  }

  /** Dividing what is left of the dividend and then sixteen zeros is absorbing what is left. */
  lemma {:induction false} DivideIsAbsorb(r: bv16, bits: seq<bool>)
    ensures Divide(r, bits + Zeros(16)) == Absorb(Shift(r, 16), bits)
    decreases |bits|
  {
    hide DivStep, SerialStep, Zeros;
    if bits == [] {
      assert bits + Zeros(16) == Zeros(16);
      DivideZeros(r, 16);
    } else {
      assert (bits + Zeros(16))[1..] == bits[1..] + Zeros(16);
      DivideIsAbsorb(DivStep(r, bits[0]), bits[1..]);
      ShiftedStep(r, bits[0]);
    }
  }

  lemma ShiftedStep(r: bv16, bit: bool)
    ensures Shift(DivStep(r, bit), 16) == SerialStep(Shift(r, 16), bit)
  {
    hide DivStep, SerialStep, Plus, Shift;
    ShiftOneMore(r, 16);
    ShiftOne();
    ShiftPlus(DivStep(r, false), 1, 16);
    DivStepPlus(r, r);
    DivStepPlus(Shift(r, 16), r);
  }

  /** The CRC of a message M is the remainder of M(x) * x^16 divided by x^16 + x^12 + x^5 + 1. */
  lemma CrcIsRemainder(data: seq<byte>)
    ensures Crc(data) == Divide(0, Bits(data) + Zeros(16))
  {
    DivideIsAbsorb(0, Bits(data));
    CrcAbsorbsBits(0, data);
    ShiftZero(16);
  }

  lemma {:induction false} ShiftZero(n: nat)
    ensures Shift(0, n) == 0
  {
    if n > 0 {
      ShiftZero(n - 1);
    }
  }

  // ---------------------------------------------------------------- linearity and error detection

  /** The messages, read as polynomials, added: bytewise exclusive or. */
  function Xor(a: seq<byte>, b: seq<byte>): seq<byte>
    requires |a| == |b|
  {
    if a == [] then [] else [a[0] ^ b[0]] + Xor(a[1..], b[1..])
  }

  function XorBits(a: seq<bool>, b: seq<bool>): seq<bool>
    requires |a| == |b|
  {
    if a == [] then [] else [a[0] != b[0]] + XorBits(a[1..], b[1..])
  }

  lemma PlusLaws(a: bv16, b: bv16, c: bv16)
    ensures Plus(a, b) == Plus(b, a)
    ensures Plus(Plus(a, b), c) == Plus(a, Plus(b, c))
  {
  }

  lemma PlusPairs(a: bv16, b: bv16, c: bv16, d: bv16)
    ensures Plus(Plus(a, c), Plus(b, d)) == Plus(Plus(a, b), Plus(c, d))
  {
    hide Plus;
    PlusLaws(a, c, Plus(b, d));
    PlusLaws(c, b, d);
    PlusLaws(b, c, d);
    PlusLaws(a, b, Plus(c, d));
  }

  lemma BitValueSum(x: bool, y: bool)
    ensures Plus(BitValue(x), BitValue(y)) == BitValue(x != y)
  {
    if x {
      if y {} else {}
    } else {
      if y {} else {}
    }
  }

  lemma DivStepSum(a: bv16, b: bv16, x: bool, y: bool)
    ensures DivStep(Plus(a, b), x != y) == Plus(DivStep(a, x), DivStep(b, y))
  {
    hide DivStep, TimesX, Plus, BitValue;
    DivForm(a, x);
    DivForm(b, y);
    DivForm(Plus(a, b), x != y);
    TimesXPlus(a, b);
    BitValueSum(x, y);
    PlusPairs(TimesX(a), TimesX(b), BitValue(x), BitValue(y));
  }

  lemma {:induction false} DivideLinear(a: bv16, b: bv16, x: seq<bool>, y: seq<bool>)
    requires |x| == |y|
    ensures Divide(Plus(a, b), XorBits(x, y)) == Plus(Divide(a, x), Divide(b, y))
    decreases |x|
  {
    hide DivStep, Plus;
    if x != [] {
      DivStepSum(a, b, x[0], y[0]);
      assert XorBits(x, y)[1..] == XorBits(x[1..], y[1..]);
      DivideLinear(DivStep(a, x[0]), DivStep(b, y[0]), x[1..], y[1..]);
    }
  }

  lemma {:induction false} DivideConcat(r: bv16, a: seq<bool>, b: seq<bool>)
    ensures Divide(r, a + b) == Divide(Divide(r, a), b)
    decreases |a|
  {
    hide DivStep;
    if a == [] {
      assert a + b == b;
    } else {
      assert (a + b)[1..] == a[1..] + b;
      DivideConcat(DivStep(r, a[0]), a[1..], b);
    }
  }

  lemma TimesXZero(r: bv16)
    ensures TimesX(r) == 0 <==> r == 0
  {
  }

  lemma PlusSelf(a: bv16, b: bv16)
    ensures Plus(a, b) == 0 <==> a == b
  {
    hide Plus;
    PlusSame(b);
    PlusZero(b);
    PlusLaws(0, b, 0);
    PlusLaws(a, b, b);
    PlusZero(a);
  }

  lemma PlusSame(a: bv16)
    ensures Plus(a, a) == 0
  {
  }

  lemma DivStepInjective(a: bv16, b: bv16, bit: bool)
    requires DivStep(a, bit) == DivStep(b, bit)
    ensures a == b
  {
    hide DivStep, TimesX, Plus;
    DivStepSum(a, b, bit, bit);
    PlusSelf(DivStep(a, bit), DivStep(b, bit));
    DivForm(Plus(a, b), false);
    PlusZero(TimesX(Plus(a, b)));
    TimesXZero(Plus(a, b));
    PlusSelf(a, b);
  }

  lemma {:induction false} DivideInjective(a: bv16, b: bv16, bits: seq<bool>)
    requires Divide(a, bits) == Divide(b, bits)
    ensures a == b
    decreases |bits|
  {
    hide DivStep;
    if bits != [] {
      DivideInjective(DivStep(a, bits[0]), DivStep(b, bits[0]), bits[1..]);
      DivStepInjective(a, b, bits[0]);
    }
  }

  /** r is a remainder of no higher degree than the mask, a run of ones. */
  predicate Below(r: bv16, mask: bv16) {
    r & mask == r
  }

  function Widened(mask: bv16): bv16 {
    (mask << 1) | 1
  }

  /** A remainder below `mask` can take n more bits without reaching degree 16. */
  predicate HasRoom(mask: bv16, n: nat)
    decreases n
  {
    n == 0 || (mask & 0x8000 == 0 && HasRoom(Widened(mask), n - 1))
  }

  lemma SixteenFit()
    ensures HasRoom(0, 16)
  {
    assert HasRoom(0x7FFF, 1) && HasRoom(0x3FFF, 2) && HasRoom(0x1FFF, 3) && HasRoom(0x0FFF, 4);
    assert HasRoom(0x07FF, 5) && HasRoom(0x03FF, 6) && HasRoom(0x01FF, 7) && HasRoom(0x00FF, 8);
    assert HasRoom(0x007F, 9) && HasRoom(0x003F, 10) && HasRoom(0x001F, 11) && HasRoom(0x000F, 12);
    assert HasRoom(7, 13) && HasRoom(3, 14) && HasRoom(1, 15);
  }

  lemma {:induction false} RoomForFewer(mask: bv16, n: nat, m: nat)
    requires HasRoom(mask, n) && m <= n
    ensures HasRoom(mask, m)
    decreases m
  {
    if m > 0 {
      RoomForFewer(Widened(mask), n - 1, m - 1);
    }
  }

  lemma ShortStep(r: bv16, mask: bv16, bit: bool)
    requires mask & 0x8000 == 0 && Below(r, mask)
    ensures Below(DivStep(r, bit), Widened(mask))
    ensures DivStep(r, bit) == 0 <==> r == 0 && !bit
  {
    if bit {} else {}
  }

  /** A dividend of at most sixteen bits is its own remainder: it is zero only if its bits are. */
  lemma {:induction false} ShortDividend(r: bv16, mask: bv16, bits: seq<bool>)
    requires Below(r, mask) && HasRoom(mask, |bits|)
    ensures Divide(r, bits) == 0 <==> r == 0 && forall k :: 0 <= k < |bits| ==> !bits[k]
    decreases |bits|
  {
    hide DivStep, Below, Widened;
    if bits != [] {
      ShortStep(r, mask, bits[0]);
      ShortDividend(DivStep(r, bits[0]), Widened(mask), bits[1..]);
      assert forall k :: 0 < k < |bits| ==> bits[k] == bits[1..][k - 1];
    }
  }

  lemma {:induction false} XorBitsDiffer(a: seq<bool>, b: seq<bool>)
    requires |a| == |b| && a != b
    ensures |XorBits(a, b)| == |a| && exists k :: 0 <= k < |a| && XorBits(a, b)[k]
  {
    if a[0] == b[0] {
      assert a == [a[0]] + a[1..] && b == [b[0]] + b[1..];
      XorBitsDiffer(a[1..], b[1..]);
      var k :| 0 <= k < |a[1..]| && XorBits(a[1..], b[1..])[k];
      assert XorBits(a, b)[k + 1];
    } else {
      XorBitsLength(a[1..], b[1..]);
      assert XorBits(a, b)[0];
    }
  }

  lemma {:induction false} XorBitsLength(a: seq<bool>, b: seq<bool>)
    requires |a| == |b|
    ensures |XorBits(a, b)| == |a|
  {
    if a != [] {
      XorBitsLength(a[1..], b[1..]);
    }
  }

  /** Two messages that differ, but only within sixteen consecutive bits, have different CRCs. */
  lemma BurstDetected(x: seq<byte>, y: seq<byte>, before: seq<bool>, u: seq<bool>, v: seq<bool>, after: seq<bool>)
    requires Bits(x) == before + u + after && Bits(y) == before + v + after
    requires |u| == |v| <= 16 && u != v
    ensures Crc(x) != Crc(y)
  {
    hide Bits, Zeros, Divide, Plus, Crc;
    CrcIsRemainder(x);
    CrcIsRemainder(y);
    var tail := after + Zeros(16);
    assert Bits(x) + Zeros(16) == before + (u + tail) && Bits(y) + Zeros(16) == before + (v + tail);
    var c := Divide(0, before);
    DivideConcat(0, before, u + tail);
    DivideConcat(0, before, v + tail);
    DivideConcat(c, u, tail);
    DivideConcat(c, v, tail);
    if Divide(c, u) == Divide(c, v) {
      DivideLinear(c, c, u, v);
      PlusSelf(c, c);
      PlusSelf(Divide(c, u), Divide(c, v));
      XorBitsDiffer(u, v);
      SixteenFit();
      RoomForFewer(0, 16, |u|);
      ShortDividend(0, 0, XorBits(u, v));
    } else if Crc(x) == Crc(y) {
      DivideInjective(Divide(c, u), Divide(c, v), tail);
    }
  }

  lemma {:induction false} BitsConcat(a: seq<byte>, b: seq<byte>)
    ensures Bits(a + b) == Bits(a) + Bits(b)
  {
    hide NibbleBits;
    if a == [] {
      assert a + b == b;
    } else {
      assert (a + b)[1..] == a[1..] + b;
      BitsConcat(a[1..], b);
    }
  }

  lemma NibbleBitsInjective(m: bv16, n: bv16)
    requires NibbleBits(m) == NibbleBits(n)
    ensures m & 0x0F == n & 0x0F
  {
    var a, b := NibbleBits(m), NibbleBits(n);
    assert a[0] == b[0] && a[1] == b[1] && a[2] == b[2] && a[3] == b[3];
  }

  lemma ByteOfNibbles(d: byte, e: byte)
    requires ((d >> 4) as bv16) & 0x0F == ((e >> 4) as bv16) & 0x0F && (d as bv16) & 0x0F == (e as bv16) & 0x0F
    ensures d == e
  {
  }

  lemma BitsOfByte(d: byte)
    ensures Bits([d]) == NibbleBits((d >> 4) as bv16) + NibbleBits(d as bv16) && |Bits([d])| == 8
  {
    assert Bits([d]) == NibbleBits((d >> 4) as bv16) + NibbleBits(d as bv16) + Bits([]);
  }

  lemma {:induction false} BitsInjective(a: seq<byte>, b: seq<byte>)
    requires |a| == |b| && Bits(a) == Bits(b)
    ensures a == b
  {
    hide NibbleBits;
    if a != [] {
      assert a == [a[0]] + a[1..] && b == [b[0]] + b[1..];
      BitsConcat([a[0]], a[1..]);
      BitsConcat([b[0]], b[1..]);
      BitsOfByte(a[0]);
      BitsOfByte(b[0]);
      assert Bits(a)[..8] == Bits([a[0]]) && Bits(a)[8..] == Bits(a[1..]);
      assert Bits(b)[..8] == Bits([b[0]]) && Bits(b)[8..] == Bits(b[1..]);
      BitsInjective(a[1..], b[1..]);
      NibbleBitsLength(a[0]);
      NibbleBitsLength(b[0]);
      assert Bits([a[0]])[..4] == Bits([b[0]])[..4] && Bits([a[0]])[4..] == Bits([b[0]])[4..];
      NibbleBitsInjective((a[0] >> 4) as bv16, (b[0] >> 4) as bv16);
      NibbleBitsInjective(a[0] as bv16, b[0] as bv16);
      ByteOfNibbles(a[0], b[0]);
    }
  }

  lemma NibbleBitsLength(d: byte)
    ensures |NibbleBits((d >> 4) as bv16)| == 4 && |NibbleBits(d as bv16)| == 4
  {
  }

  lemma {:induction false} BitsLength(a: seq<byte>)
    ensures |Bits(a)| == 8 * |a|
  {
    if a != [] {
      NibbleBitsLength(a[0]);
      hide NibbleBits;
      BitsLength(a[1..]);
    }
  }

  /** Two messages of equal length that differ, but only in one or two adjacent bytes, have different CRCs. */
  lemma AdjacentBytesDetected(before: seq<byte>, u: seq<byte>, v: seq<byte>, after: seq<byte>)
    requires |u| == |v| <= 2 && u != v
    ensures Crc(before + u + after) != Crc(before + v + after)
  {
    hide Bits, Crc;
    BitsConcat(before + u, after);
    BitsConcat(before, u);
    BitsConcat(before + v, after);
    BitsConcat(before, v);
    BitsLength(u);
    BitsLength(v);
    if Bits(u) == Bits(v) {
      BitsInjective(u, v);
    }
    BurstDetected(before + u + after, before + v + after, Bits(before), Bits(u), Bits(v), Bits(after));
  }

  lemma BitsOfXor(m: bv16, n: bv16)
    ensures ((m ^ n) & 8 != 0) == ((m & 8 != 0) != (n & 8 != 0)) && ((m ^ n) & 4 != 0) == ((m & 4 != 0) != (n & 4 != 0))
    ensures ((m ^ n) & 2 != 0) == ((m & 2 != 0) != (n & 2 != 0)) && ((m ^ n) & 1 != 0) == ((m & 1 != 0) != (n & 1 != 0))
  {
  }

  lemma XorBitsFour(a: seq<bool>, b: seq<bool>)
    requires |a| == |b| == 4
    ensures XorBits(a, b) == [a[0] != b[0], a[1] != b[1], a[2] != b[2], a[3] != b[3]]
  {
    assert a[1..][1..] == a[2..] && a[2..][1..] == a[3..] && a[3..][1..] == [];
    assert b[1..][1..] == b[2..] && b[2..][1..] == b[3..] && b[3..][1..] == [];
    assert XorBits(a[3..], b[3..]) == [a[3] != b[3]];
    assert XorBits(a[2..], b[2..]) == [a[2] != b[2], a[3] != b[3]];
  }

  lemma NibbleBitsXor(m: bv16, n: bv16)
    ensures NibbleBits(m ^ n) == XorBits(NibbleBits(m), NibbleBits(n))
  {
    BitsOfXor(m, n);
    XorBitsFour(NibbleBits(m), NibbleBits(n));
  }

  lemma {:induction false} XorBitsConcat(a: seq<bool>, b: seq<bool>, c: seq<bool>, d: seq<bool>)
    requires |a| == |b| && |c| == |d|
    ensures XorBits(a + c, b + d) == XorBits(a, b) + XorBits(c, d)
  {
    if a == [] {
      assert a + c == c && b + d == d;
    } else {
      assert (a + c)[1..] == a[1..] + c && (b + d)[1..] == b[1..] + d;
      XorBitsConcat(a[1..], b[1..], c, d);
    }
  }

  lemma NibblesXor(d: byte, e: byte)
    ensures ((d ^ e) >> 4) as bv16 == ((d >> 4) as bv16) ^ ((e >> 4) as bv16)
    ensures (d ^ e) as bv16 == (d as bv16) ^ (e as bv16)
  {
  }

  lemma ByteBitsXor(d: byte, e: byte)
    ensures |Bits([d])| == 8 == |Bits([e])| && Bits([d ^ e]) == XorBits(Bits([d]), Bits([e]))
  {
    BitsOfByte(d);
    BitsOfByte(e);
    BitsOfByte(d ^ e);
    NibbleBitsLength(d);
    NibbleBitsLength(e);
    NibblesXor(d, e);
    hide NibbleBits, Bits;
    NibbleBitsXor((d >> 4) as bv16, (e >> 4) as bv16);
    NibbleBitsXor(d as bv16, e as bv16);
    XorBitsConcat(NibbleBits((d >> 4) as bv16), NibbleBits((e >> 4) as bv16), NibbleBits(d as bv16), NibbleBits(e as bv16));
  }

  lemma {:induction false} BitsXor(a: seq<byte>, b: seq<byte>)
    requires |a| == |b|
    ensures |Bits(a)| == |Bits(b)| && Bits(Xor(a, b)) == XorBits(Bits(a), Bits(b))
  {
    BitsLength(a);
    BitsLength(b);
    if a != [] {
      hide Bits;
      BitsLength(a[1..]);
      BitsLength(b[1..]);
      assert a == [a[0]] + a[1..] && b == [b[0]] + b[1..];
      BitsConcat([a[0]], a[1..]);
      BitsConcat([b[0]], b[1..]);
      BitsConcat([a[0] ^ b[0]], Xor(a[1..], b[1..]));
      ByteBitsXor(a[0], b[0]);
      BitsXor(a[1..], b[1..]);
      XorBitsConcat(Bits([a[0]]), Bits([b[0]]), Bits(a[1..]), Bits(b[1..]));
    }
  }

  lemma SerialStepSum(a: bv16, b: bv16, x: bool, y: bool)
    ensures SerialStep(Plus(a, b), x != y) == Plus(SerialStep(a, x), SerialStep(b, y))
  {
    hide Plus, SerialStep, DivStep;
    DivStepPlus(a, b);
    DivStepPlus(b, a);
    DivStepPlus(Plus(a, b), 0);
    var (p, q) := (DivStep(a, false), DivStep(b, false));
    PlusLaws(p, q, 0x1021);
    PlusLaws(p, 0x1021, q);
    PlusLaws(q, 0x1021, 0);
    if x && y {
      PlusPairs(p, q, 0x1021, 0x1021);
      PlusSelf(0x1021, 0x1021);
      PlusZero(Plus(p, q));
    }
  }

  lemma {:induction false} AbsorbLinear(a: bv16, b: bv16, x: seq<bool>, y: seq<bool>)
    requires |x| == |y|
    ensures Absorb(Plus(a, b), XorBits(x, y)) == Plus(Absorb(a, x), Absorb(b, y))
    decreases |x|
  {
    hide SerialStep, Plus;
    if x != [] {
      SerialStepSum(a, b, x[0], y[0]);
      assert XorBits(x, y)[1..] == XorBits(x[1..], y[1..]);
      AbsorbLinear(SerialStep(a, x[0]), SerialStep(b, y[0]), x[1..], y[1..]);
    }
  }

  /** The CRC is linear: the CRC of the exclusive or is the exclusive or of the CRCs. */
  lemma CrcLinear(a: seq<byte>, b: seq<byte>)
    requires |a| == |b|
    ensures Crc(Xor(a, b)) == Crc(a) ^ Crc(b)
  {
    BitsXor(a, b);
    CrcAbsorbsBits(0, a);
    CrcAbsorbsBits(0, b);
    CrcAbsorbsBits(0, Xor(a, b));
    PlusZero(0);
    AbsorbLinear(0, 0, Bits(a), Bits(b));
    hide Bits, Absorb, CrcFrom, Xor;
  }
}
