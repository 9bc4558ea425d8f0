/**
 The table-driven CRC of tui/src/native-image-thumbnail.ts against the bit-serial
 division of the PNG specification, section 5.5.
 */
module Crc {
  import opened Bits

  const POLYNOMIAL: nat := 0xedb8_8320
  const ONES: nat := 0xffff_ffff

  // ----- the reference: one message bit at a time

  /** One step of the division: shift out the low bit, and subtract the polynomial when it was set. */
  function Shift(v: nat): nat {
    if v % 2 == 1 then Xor(POLYNOMIAL, v / 2) else v / 2
  }

  /** Feeds one bit of the message. */
  function FeedBit(register: nat, bit: nat): nat {
    Shift(Xor(register, bit))
  }

  function FeedBits(register: nat, bits: seq<nat>): nat
    decreases |bits|
  {
    if bits == [] then register else FeedBits(FeedBit(register, bits[0]), bits[1..])
  }

  /** The bits of a byte, least significant first. */
  function BitsOf(b: Byte): seq<nat> {
    [b % 2, b / 2 % 2, b / 4 % 2, b / 8 % 2, b / 16 % 2, b / 32 % 2, b / 64 % 2, b / 128 % 2]
  }

  function MessageBits(data: seq<Byte>): seq<nat> {
    if data == [] then [] else MessageBits(data[..|data| - 1]) + BitsOf(data[|data| - 1])
  }

  /** The CRC: the register starts as all ones and is complemented at the end. */
  function Crc32Of(data: seq<Byte>): nat {
    Xor(FeedBits(ONES, MessageBits(data)), ONES)
  }

  /** A power of x in the register: the highest power is the lowest bit. */
  function Power(k: nat): nat
    requires k < 32
  {
    Pow2(31 - k)
  }

  /**
   The polynomial of section 5.5, without its leading x^32:
   x^26 + x^23 + x^22 + x^16 + x^12 + x^11 + x^10 + x^8 + x^7 + x^5 + x^4 + x^2 + x + 1.
   */
  lemma PolynomialOfTheSpecification()
    ensures POLYNOMIAL
         == Power(26) + Power(23) + Power(22) + Power(16) + Power(12) + Power(11) + Power(10)
            + Power(8) + Power(7) + Power(5) + Power(4) + Power(2) + Power(1) + Power(0)
    ensures ONES == Pow2(32) - 1
  {
    Pow2Of32();
    assert Power(26) == 0x20 && Power(23) == 0x100 && Power(22) == 0x200;
    assert Power(16) == 0x8000 && Power(12) == 0x8_0000 && Power(11) == 0x10_0000 && Power(10) == 0x20_0000;
    assert Power(8) == 0x80_0000 && Power(7) == 0x100_0000 && Power(5) == 0x400_0000 && Power(4) == 0x800_0000;
    assert Power(2) == 0x2000_0000 && Power(1) == 0x4000_0000 && Power(0) == 0x8000_0000;
    hide Power, Pow2;
  }

  // ----- the code

  function Shifts(v: nat, n: nat): nat {
    if n == 0 then v else Shift(Shifts(v, n - 1))
  }

  ghost predicate IsTable(table: seq<nat>) {
    |table| == 256 && forall i :: 0 <= i < 256 ==> table[i] == Shifts(i, 8)
  }

  /** `crcTable`. */
  method CrcTable() returns (table: array<nat>)
    ensures fresh(table) && IsTable(table[..])
  {
    table := new nat[256];
    for index := 0 to 256
      invariant forall i :: 0 <= i < index ==> table[i] == Shifts(i, 8)
    {
      var value: nat := index;
      for bit := 0 to 8
        invariant value == Shifts(index, bit)
      {
        value := if value % 2 == 1 then Xor(POLYNOMIAL, value / 2) else value / 2;
      }
      table[index] := value;
    }
  }

  /** `crc32`: one table step per byte. */
  method Crc32(table: array<nat>, data: seq<Byte>) returns (crc: nat)
    requires IsTable(table[..])
    ensures crc == Crc32Of(data)
  {
    var value := ONES;
    for i := 0 to |data|
      invariant value == FeedBits(ONES, MessageBits(data[..i]))
    {
      ByteStep(table[..], value, data[i]);
      FeedBitsAppend(ONES, MessageBits(data[..i]), BitsOf(data[i]));
      assert data[..i + 1][..i] == data[..i];
      value := Xor(table[Xor(value, data[i]) % 256], value / 256);
    }
    assert data[..|data|] == data;
    crc := Xor(value, ONES);
  }

  // ----- why they agree: a step is linear over exclusive or

  lemma ShiftIsLinear(x: nat, y: nat)
    ensures Shift(Xor(x, y)) == Xor(Shift(x), Shift(y))
  {
    XorHalf(x, y);
    XorCancels(POLYNOMIAL, x / 2, y / 2);
  }

  lemma {:induction false} ShiftsAreLinear(x: nat, y: nat, n: nat)
    ensures Shifts(Xor(x, y), n) == Xor(Shifts(x, n), Shifts(y, n))
  {
    if n > 0 {
      ShiftsAreLinear(x, y, n - 1);
      ShiftIsLinear(Shifts(x, n - 1), Shifts(y, n - 1));
    }
  }

  lemma {:induction false} FeedBitsAppend(register: nat, a: seq<nat>, b: seq<nat>)
    ensures FeedBits(register, a + b) == FeedBits(FeedBits(register, a), b)
    decreases |a|
  {
    if a == [] {
      assert a + b == b;
    } else {
      assert (a + b)[1..] == a[1..] + b;
      FeedBitsAppend(FeedBit(register, a[0]), a[1..], b);
    }
  }

  /** What is left of a byte after `n` of its bits are shifted out. */
  function Drop(b: nat, n: nat): nat {
    if n == 0 then b else Drop(b, n - 1) / 2
  }

  /** Feeding bits one by one equals shifting with the whole byte already added in. */
  lemma {:induction false} SerialIsShifts(register: nat, b: nat, bits: seq<nat>, n: nat)
    requires n <= |bits|
    requires forall i {:trigger bits[i]} :: 0 <= i < |bits| ==> bits[i] == Drop(b, i) % 2
    ensures Shifts(Xor(register, b), n) == Xor(FeedBits(register, bits[..n]), Drop(b, n))
  {
    if n > 0 {
      SerialIsShifts(register, b, bits, n - 1);
      assert bits[..n] == bits[..n - 1] + [bits[n - 1]];
      FeedBitsSnoc(register, bits[..n - 1], bits[n - 1]);
      ShiftTakesLowBit(FeedBits(register, bits[..n - 1]), Drop(b, n - 1));
      assert Drop(b, n) == Drop(b, n - 1) / 2;
      assert bits[n - 1] == Drop(b, n - 1) % 2;
    }
  }

  lemma FeedBitsSnoc(register: nat, bits: seq<nat>, bit: nat)
    ensures FeedBits(register, bits + [bit]) == FeedBit(FeedBits(register, bits), bit)
  {
    FeedBitsAppend(register, bits, [bit]);
    assert [bit][1..] == [];
  }

  lemma ShiftTakesLowBit(s: nat, rest: nat)
    ensures Shift(Xor(s, rest)) == Xor(FeedBit(s, rest % 2), rest / 2)
  {
    hide Xor, Shift;
    var low, high := rest % 2, 2 * (rest / 2);
    LowBitAndRest(rest);
    XorAssociates(s, low, high);
    ShiftIsLinear(Xor(s, low), high);
    ShiftOfEven(rest / 2);
  }

  lemma LowBitAndRest(rest: nat)
    ensures Xor(rest % 2, 2 * (rest / 2)) == rest
  {
    hide Xor;
    XorDisjoint(rest % 2, rest / 2, 1);
  }

  lemma ShiftOfEven(v: nat)
    ensures Shift(2 * v) == v
  {
    hide Xor;
  }

  lemma DroppedByte(b: Byte)
    ensures Drop(b, 8) == 0
    ensures forall i :: 0 <= i < 8 ==> BitsOf(b)[i] == Drop(b, i) % 2
  {
    assert Drop(b, 1) == b / 2;
    assert Drop(b, 2) == b / 4;
    assert Drop(b, 3) == b / 8;
    assert Drop(b, 4) == b / 16;
    assert Drop(b, 5) == b / 32;
    assert Drop(b, 6) == b / 64;
    assert Drop(b, 7) == b / 128;
    assert Drop(b, 8) == b / 256;
  }

  /** With zero bits at the bottom, that many steps only move the rest down. */
  lemma {:induction false} ShiftsOfHighBits(v: nat, n: nat, k: nat)
    requires k <= n
    ensures Shifts(Up(v, n), k) == Up(v, n - k)
    decreases k
  {
    if k > 0 {
      ShiftsOfHighBits(v, n, k - 1);
    }
  }

  lemma UpByByte(v: nat)
    ensures Up(v, 8) == 256 * v
  {
    assert Up(v, 1) == 2 * v;
    assert Up(v, 2) == 4 * v;
    assert Up(v, 3) == 8 * v;
    assert Up(v, 4) == 16 * v;
    assert Up(v, 5) == 32 * v;
    assert Up(v, 6) == 64 * v;
    assert Up(v, 7) == 128 * v;
  }

  /** Eight bit steps are eight shifts of the register with the byte added in. */
  lemma EightBits(value: nat, b: Byte)
    ensures FeedBits(value, BitsOf(b)) == Shifts(Xor(value, b), 8)
  {
    DroppedByte(b);
    SerialIsShifts(value, b, BitsOf(b), 8);
    assert BitsOf(b)[..8] == BitsOf(b);
    XorZero(FeedBits(value, BitsOf(b)));
  }

  /** Eight shifts depend on the low byte through the table, and move the rest down. */
  lemma EightShifts(v: nat)
    ensures Shifts(v, 8) == Xor(Shifts(v % 256, 8), v / 256)
  {
    assert Pow2(8) == 256;
    UpByByte(v / 256);
    XorDisjoint(v % 256, v / 256, 8);
    ShiftsAreLinear(v % 256, 256 * (v / 256), 8);
    ShiftsOfHighBits(v / 256, 8, 8);
  }

  /** One table step is eight bit steps. */
  lemma ByteStep(table: seq<nat>, value: nat, b: Byte)
    requires IsTable(table)
    ensures FeedBits(value, BitsOf(b)) == Xor(table[Xor(value, b) % 256], value / 256)
  {
    EightBits(value, b);
    EightShifts(Xor(value, b));
    ByteLeavesHighBits(value, b);
  }

  /** A byte does not touch the bits above it. */
  lemma ByteLeavesHighBits(value: nat, b: Byte)
    ensures Xor(value, b) / 256 == value / 256
  {
    XorDrops(value, b, 8);
    DroppedByte(b);
    DropIsDivision(value);
    DropIsDivision(Xor(value, b));
    XorZero(value / 256);
  }

  lemma {:induction false} XorDrops(x: nat, y: nat, n: nat)
    ensures Drop(Xor(x, y), n) == Xor(Drop(x, n), Drop(y, n))
  {
    if n > 0 {
      XorDrops(x, y, n - 1);
      XorHalf(Drop(x, n - 1), Drop(y, n - 1));
    }
  }

  lemma DropIsDivision(x: nat)
    ensures Drop(x, 8) == x / 256
  {
    assert Drop(x, 1) == x / 2;
    assert Drop(x, 2) == x / 4;
    assert Drop(x, 3) == x / 8;
    assert Drop(x, 4) == x / 16;
    assert Drop(x, 5) == x / 32;
    assert Drop(x, 6) == x / 64;
    assert Drop(x, 7) == x / 128;
  }

  // ----- the result is a 32-bit word

  lemma {:induction false} FeedBitsFit(register: nat, bits: seq<nat>)
    requires register < Pow2(32) && forall i :: 0 <= i < |bits| ==> bits[i] < 2
    ensures FeedBits(register, bits) < Pow2(32)
    decreases |bits|
  {
    if bits != [] {
      Pow2Of32();
      XorBound(register, bits[0], 32);
      var v := Xor(register, bits[0]);
      XorBound(POLYNOMIAL, v / 2, 32);
      FeedBitsFit(FeedBit(register, bits[0]), bits[1..]);
    }
  }

  lemma Pow2Of32()
    ensures Pow2(32) == 0x1_0000_0000
  {
    assert Pow2(8) == 0x100;
    assert Pow2(16) == 0x1_0000;
    assert Pow2(24) == 0x100_0000;
  }

  lemma {:induction false} MessageBitsAreBits(data: seq<Byte>)
    ensures forall i :: 0 <= i < |MessageBits(data)| ==> MessageBits(data)[i] < 2
  {
    if data != [] {
      MessageBitsAreBits(data[..|data| - 1]);
    }
  }

  lemma CrcFitsInFourBytes(data: seq<Byte>)
    ensures Crc32Of(data) < 0x1_0000_0000
  {
    Pow2Of32();
    MessageBitsAreBits(data);
    FeedBitsFit(ONES, MessageBits(data));
    XorBound(FeedBits(ONES, MessageBits(data)), ONES, 32);
  }
}
