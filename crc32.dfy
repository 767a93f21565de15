/**
 * CRC-32 with the IEEE 802.3 polynomial, as computed by Go's `crc32.ChecksumIEEE`:
 * reflected polynomial 0xEDB88320, initial value and final xor 0xFFFFFFFF.
 */
module Crc32 {
  import opened Common

  const Polynomial: bv32 := 0xEDB8_8320

  /** One bit of the reflected shift register. */
  function ShiftBit(c: bv32): bv32
  {
    if c & 1 == 1 then (c >> 1) ^ Polynomial else c >> 1
  }

  function ShiftBits(c: bv32, k: nat): bv32
    decreases k
  {
    if k == 0 then c else ShiftBits(ShiftBit(c), k - 1)
  }

  /** Feed one byte into the register c. */
  function Step(c: bv32, b: byte): bv32
  {
    ShiftBits(c ^ (b as bv32), 8)
  }

  /** Feed the bytes of data into the register c, first byte first. */
  function Update(c: bv32, data: seq<byte>): bv32
    decreases |data|
  {
    if data == [] then c else Update(Step(c, data[0]), data[1..])
  }

  function ChecksumIEEE(data: seq<byte>): (r: u32)
  {
    (Update(0xFFFF_FFFF, data) ^ 0xFFFF_FFFF) as int
  }

  /** The checksum of nothing is zero. */
  lemma ChecksumOfEmpty()
    ensures ChecksumIEEE([]) == 0
  {
  }

  /** Feeding a + b is feeding a and then b: the register is a streaming state. */
  lemma {:induction false} UpdateConcat(c: bv32, a: seq<byte>, b: seq<byte>)
    ensures Update(c, a + b) == Update(Update(c, a), b)
    decreases |a|
  {
    if a != [] {
      assert (a + b)[1..] == a[1..] + b;
      UpdateConcat(Step(c, a[0]), a[1..], b);
    } else {
      assert a + b == b;
    }
  }

  /** The register after each byte of the ASCII string "123456789". */
  lemma CheckStringSteps()
    ensures Step(0xFFFFFFFF, 0x31) == 0x7C231048
    ensures Step(0x7C231048, 0x32) == 0xB0ACBB32
    ensures Step(0xB0ACBB32, 0x33) == 0x77B79C2D
    ensures Step(0x77B79C2D, 0x34) == 0x641C1F5C
    ensures Step(0x641C1F5C, 0x35) == 0x340AC5E3
    ensures Step(0x340AC5E3, 0x36) == 0xF68D2C9E
    ensures Step(0xF68D2C9E, 0x37) == 0xAFFC9660
    ensures Step(0xAFFC9660, 0x38) == 0x651F2550
    ensures Step(0x651F2550, 0x39) == 0x340BC6D9
  {
  }

  /** The last four steps over "6789". */
  lemma CheckStringTail()
    ensures Update(0x340AC5E3, [0x36, 0x37, 0x38, 0x39]) == 0x340BC6D9
  {
    CheckStringSteps();
    assert Update(0x651F2550, [0x39]) == 0x340BC6D9;
    assert Update(0xAFFC9660, [0x38, 0x39]) == 0x340BC6D9;
    assert Update(0xF68D2C9E, [0x37, 0x38, 0x39]) == 0x340BC6D9;
  }

  /** The standard check value of this CRC: the checksum of the ASCII string "123456789". */
  lemma CheckValue()
    ensures ChecksumIEEE([0x31, 0x32, 0x33, 0x34, 0x35, 0x36, 0x37, 0x38, 0x39]) == 0xCBF4_3926
  {
    CheckStringSteps();
    CheckStringTail();
    assert Update(0x641C1F5C, [0x35, 0x36, 0x37, 0x38, 0x39]) == 0x340BC6D9;
    assert Update(0x77B79C2D, [0x34, 0x35, 0x36, 0x37, 0x38, 0x39]) == 0x340BC6D9;
    assert Update(0xB0ACBB32, [0x33, 0x34, 0x35, 0x36, 0x37, 0x38, 0x39]) == 0x340BC6D9;
    assert Update(0x7C231048, [0x32, 0x33, 0x34, 0x35, 0x36, 0x37, 0x38, 0x39]) == 0x340BC6D9;
    assert Update(0xFFFFFFFF, [0x31, 0x32, 0x33, 0x34, 0x35, 0x36, 0x37, 0x38, 0x39]) == 0x340BC6D9;
  }
}
