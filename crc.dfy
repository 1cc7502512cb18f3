/**
 * The CRC-16 of the device's wire protocol: polynomial 0x8005, a 16-bit
 * register that starts at zero, data bits taken least significant first,
 * no final XOR.
 */
module Crc16 {
  import opened Base

  const Polynomial: bv16 := 0x8005

  /** Bit k (0 = least significant) of a byte. */
  predicate DataBit(b: Byte, k: nat)
    requires k < 8
  {
    ((b as bv8) >> k) & 1 == 1
  }

  /** One register step: shift left, and XOR the polynomial in when the
      data bit differs from the bit shifted out of position 15. */
  function Step(reg: bv16, bit: bool): bv16
  {
    var out := reg >> 15 == 1;
    var shifted := reg << 1;
    if bit != out then shifted ^ Polynomial else shifted
  }

  /** The register after feeding bits k..7 of b, lowest first. */
  function FeedBits(reg: bv16, b: Byte, k: nat): bv16
    requires k <= 8
    decreases 8 - k
  {
    if k == 8 then reg else FeedBits(Step(reg, DataBit(b, k)), b, k + 1)
  }

  function FeedByte(reg: bv16, b: Byte): bv16
  {
    FeedBits(reg, b, 0)
  }

  /** The register after feeding every byte of data, first byte first. */
  function Feed(reg: bv16, data: seq<Byte>): bv16
    decreases |data|
  {
    if data == [] then reg else Feed(FeedByte(reg, data[0]), data[1..])
  }

  /** The checksum of data, as the unsigned value the source returns. */
  function Crc(data: seq<Byte>): nat
  {
    Feed(0, data) as nat
  }

  lemma {:induction false} FeedAppend(reg: bv16, a: seq<Byte>, b: seq<Byte>)
    ensures Feed(reg, a + b) == Feed(Feed(reg, a), b)
    decreases |a|
  {
    if a != [] {
      assert (a + b)[0] == a[0];
      assert (a + b)[1..] == a[1..] + b;
      assert Feed(reg, a + b) == Feed(FeedByte(reg, a[0]), a[1..] + b);
      assert Feed(reg, a) == Feed(FeedByte(reg, a[0]), a[1..]);
      FeedAppend(FeedByte(reg, a[0]), a[1..], b);
    } else {
      assert a + b == b;
    }
  }

  /** The checksum can be computed incrementally: the CRC of a + b is the
      register left by a, fed with b. */
  lemma {:induction false} CrcAppend(a: seq<Byte>, b: seq<Byte>)
    ensures Crc(a + b) == Feed(Feed(0, a), b) as nat
  {
    FeedAppend(0, a, b);
  }

  /** The register starts at zero, so the empty input has checksum 0, and
      every checksum fits in 16 bits. */
  lemma CrcEmptyAndBounded(data: seq<Byte>)
    ensures Crc([]) == 0
    ensures Crc(data) < 65536
  {
  }

  /** The wake sentinel 04 11 33 43 is itself a well-formed response frame:
      count 4, status 0x11, and 0x4333 is the CRC of its first two bytes. */
  lemma WakeSentinelCrc()
    ensures Crc([0x04, 0x11]) == 0x4333
  {
    assert FeedBits(0x80C3, 0x04, 8) == 0x80C3;
    assert FeedBits(0x8063, 0x04, 7) == 0x80C3;
    assert FeedBits(0x8033, 0x04, 6) == 0x80C3;
    assert FeedBits(0x801B, 0x04, 5) == 0x80C3;
    assert FeedBits(0x800F, 0x04, 4) == 0x80C3;
    assert FeedBits(0x8005, 0x04, 3) == 0x80C3;
    assert FeedBits(0x0000, 0x04, 2) == 0x80C3;
    assert FeedBits(0x0000, 0x04, 1) == 0x80C3;
    assert FeedBits(0x0000, 0x04, 0) == 0x80C3;
    assert FeedBits(0x4333, 0x11, 8) == 0x4333;
    assert FeedBits(0xE19B, 0x11, 7) == 0x4333;
    assert FeedBits(0xB0CF, 0x11, 6) == 0x4333;
    assert FeedBits(0x9865, 0x11, 5) == 0x4333;
    assert FeedBits(0x0C30, 0x11, 4) == 0x4333;
    assert FeedBits(0x0618, 0x11, 3) == 0x4333;
    assert FeedBits(0x030C, 0x11, 2) == 0x4333;
    assert FeedBits(0x0186, 0x11, 1) == 0x4333;
    assert FeedBits(0x80C3, 0x11, 0) == 0x4333;
    assert [0x04, 0x11][1..] == [0x11];
    assert Feed(0, [0x04, 0x11]) == Feed(0x80C3, [0x11]);
  }

  /** The inner loop's mask after k doublings of 0x01: 1 << k, or 0 once
      the bit has been shifted out of the byte. */
  function Mask(k: nat): bv8
    requires k <= 8
  {
    if k == 0 then 0x01 else if k == 1 then 0x02 else if k == 2 then 0x04
    else if k == 3 then 0x08 else if k == 4 then 0x10 else if k == 5 then 0x20
    else if k == 6 then 0x40 else if k == 7 then 0x80 else 0x00
  }

  /** The mask is live for bits 0 to 7 and zero after them. */
  lemma MaskLive(k: nat)
    requires k <= 8
    ensures Mask(k) != 0 <==> k < 8
  {
  }

  /** Doubling the mask of pass k gives the mask of pass k + 1. */
  lemma MaskShift(k: nat)
    requires k < 8
    ensures Mask(k) << 1 == Mask(k + 1)
  {
    if k == 0 {} else if k == 1 {} else if k == 2 {} else if k == 3 {}
    else if k == 4 {} else if k == 5 {} else if k == 6 {} else {}
  }

  /** The mask of pass k selects bit k. */
  lemma MaskTest(b: Byte, k: nat, m: bv8)
    requires k < 8 && m == Mask(k)
    ensures ((b as bv8) & m != 0) == DataBit(b, k)
  {
    if k == 0 {} else if k == 1 {} else if k == 2 {} else if k == 3 {}
    else if k == 4 {} else if k == 5 {} else if k == 6 {} else {}
  }

  /** The data bit under the mask of pass k. */
  method MaskedBit(b: Byte, shiftRegister: bv8, ghost k: nat) returns (dataBit: bool)
    requires k < 8 && shiftRegister == Mask(k)
    ensures dataBit == DataBit(b, k)
  {
    MaskTest(b, k, shiftRegister);
    dataBit := (b as bv8) & shiftRegister != 0;
  }

  /** The register's part of a pass: shift left, and take the polynomial
      when the data bit differs from the bit shifted out. */
  method Shift(crcRegister: bv16, dataBit: bool) returns (reg: bv16)
    ensures reg == Step(crcRegister, dataBit)
  {
    var crcBit := crcRegister >> 15 == 1;
    reg := crcRegister << 1;
    if dataBit != crcBit {
      reg := reg ^ Polynomial;
    }
  }

  /** The inner loop of the source for one byte: a shift register walks
      the masks 0x01, 0x02, ..., 0x80 and then falls to zero. */
  method ShiftByte(crcRegister: bv16, b: Byte) returns (reg: bv16)
    ensures reg == FeedByte(crcRegister, b)
  {
    reg := crcRegister;
    var shiftRegister: bv8 := 0x01;
    ghost var k: nat := 0;
    while shiftRegister > 0x00
      invariant k <= 8
      invariant shiftRegister == Mask(k)
      invariant FeedBits(reg, b, k) == FeedByte(crcRegister, b)
      decreases 8 - k
    {
      MaskLive(k);
      var dataBit := MaskedBit(b, shiftRegister, k);
      reg := Shift(reg, dataBit);
      MaskShift(k);
      shiftRegister := shiftRegister << 1;
      k := k + 1;
    }
    MaskLive(k);
  }

  /** The bit-serial checksum loop of the source, byte by byte. */
  method ComputeCrc(data: seq<Byte>) returns (crc: nat)
    ensures crc == Crc(data)
    ensures crc < 65536
  {
    var crcRegister: bv16 := 0;
    var i := 0;
    while i < |data|
      invariant 0 <= i <= |data|
      invariant Feed(crcRegister, data[i..]) == Feed(0, data)
    {
      crcRegister := ShiftByte(crcRegister, data[i]);
      assert data[i..][1..] == data[i + 1..];
      i := i + 1;
    }
    crc := crcRegister as nat;
  }
}
