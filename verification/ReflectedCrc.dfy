/** CRCs that take the low bit of each byte first: crc32_update in unified_config.c, the
    zlib CRC of the host tools, and crc16_modbus of the flasher. A register is written
    low bit first (see BitWord), so that `>> 1` is `Up` and the theorems of module Crc apply. */
module ReflectedCrc {
  import opened BitWord
  import opened Crc
  import opened Widths

  const CRC32_POLY := 0xEDB88320
  const MODBUS_POLY := 0xA001

  /** A byte, low bit first. */
  function LowFirst(d: uint8): (r: Word)
    ensures |r| == 8
  {
    Reverse(Bits(8, d))
  }

  function Not(a: Word): (r: Word)
    ensures |r| == |a|
  {
    seq(|a|, i requires 0 <= i < |a| => !a[i])
  }

  /** Eight turns of `(crc >> 1) ^ (poly if crc & 1)`, after `crc ^= byte`. */
  function BitwiseByte(poly: Word, crc: Word, d: uint8): (r: Word)
    requires |crc| == |poly| >= 8
    ensures |r| == |crc|
  {
    Shifts(|poly|, poly, Xor(crc, AtTop(|poly|, |poly|, LowFirst(d))), 8)
  }

  function Bitwise(poly: Word, crc: Word, data: seq<uint8>): (r: Word)
    requires |crc| == |poly| >= 8
    ensures |r| == |crc|
  {
    if data == [] then crc
    else BitwiseByte(poly, Bitwise(poly, crc, data[..|data| - 1]), data[|data| - 1])
  }

  /** `crc_table[(crc ^ d) & 0xff] ^ (crc >> 8)` (section 8 of RFC 1952). */
  function TableDriven(poly: Word, crc: Word, data: seq<uint8>): (r: Word)
    requires |crc| == |poly| >= 8
    ensures |r| == |crc|
  {
    if data == [] then crc
    else TableByte(|poly|, poly, TableDriven(poly, crc, data[..|data| - 1]), LowFirst(data[|data| - 1]))
  }

  function ReflectedMessage(data: seq<uint8>): (bits: seq<bool>) {
    if data == [] then [] else ReflectedMessage(data[..|data| - 1]) + LowFirst(data[|data| - 1])
  }

  /** Both forms are the division circuit fed low bits first; so they agree on every
      message, initial value and polynomial. */
  lemma {:induction false} ReflectedFormsAgree(poly: Word, crc: Word, data: seq<uint8>)
    requires |crc| == |poly| >= 8
    ensures Bitwise(poly, crc, data) == Feed(poly, crc, ReflectedMessage(data))
    ensures TableDriven(poly, crc, data) == Feed(poly, crc, ReflectedMessage(data))
  {
    if data == [] {
    } else {
      var n := |data| - 1;
      ReflectedFormsAgree(poly, crc, data[..n]);
      var s, d := Feed(poly, crc, ReflectedMessage(data[..n])), LowFirst(data[n]);
      FeedConcat(poly, crc, ReflectedMessage(data[..n]), d);
      ByteIsShifts(poly, s, d);
      ExactLookup(poly, s, d);
    }
  }

  // ----- crc32 and modbus as integers ---------------------------------------------

  function FromInt(n: nat, x: nat): (r: Word)
    ensures |r| == n
  {
    Reverse(Bits(n, x))
  }

  function ToInt(w: Word): (x: nat)
    ensures x < Power(|w|)
  {
    Value(Reverse(w))
  }

  lemma Powers()
    ensures Power(16) == 0x1_0000 && Power(32) == 0x1_0000_0000
  {
    assert Power(8) == 16 * Power(4) == 0x100;
    assert Power(12) == 16 * Power(8);
    assert Power(16) == 16 * Power(12);
    assert Power(20) == 16 * Power(16);
    assert Power(24) == 16 * Power(20);
    assert Power(28) == 16 * Power(24);
    assert Power(32) == 16 * Power(28);
  }

  /** `crc32_update(crc, data, length)` of the firmware. */
  function Crc32Update(crc: uint32, data: seq<uint8>): (r: uint32) {
    Powers();
    ToInt(Not(Bitwise(FromInt(32, CRC32_POLY), Not(FromInt(32, crc)), data)))
  }

  /** `zlib.crc32(data)` */
  function ZlibCrc32(data: seq<uint8>): (r: uint32) {
    Powers();
    ToInt(Not(TableDriven(FromInt(32, CRC32_POLY), Not(FromInt(32, 0)), data)))
  }

  lemma FirmwareAgreesWithZlib(data: seq<uint8>)
    ensures Crc32Update(0, data) == ZlibCrc32(data)
  {
    ReflectedFormsAgree(FromInt(32, CRC32_POLY), Not(FromInt(32, 0)), data);
  }

  function Crc16Modbus(data: seq<uint8>): (r: uint16) {
    Powers();
    ToInt(Bitwise(FromInt(16, MODBUS_POLY), FromInt(16, 0xFFFF), data))
  }

  /** The inner loop: one turn for each bit of a byte. */
  method EightTurns(poly: Word, start: Word) returns (crc: Word)
    requires |start| == |poly| >= 8
    ensures crc == Shifts(|poly|, poly, start, 8)
  {
    crc := start;
    var bit := 0;
    while bit < 8
      invariant 0 <= bit <= 8 && |crc| == |poly|
      invariant crc == Shifts(|poly|, poly, start, bit)
    {
      crc := if crc[0] then Xor(Up(crc), poly) else Up(crc);
      bit := bit + 1;
    }
  }

  /** The loop that the firmware's crc32_update and both crc16_modbus functions are. */
  method BitwiseLoop(poly: Word, initial: Word, data: seq<uint8>) returns (crc: Word)
    requires |initial| == |poly| >= 8
    ensures crc == Bitwise(poly, initial, data)
  {
    crc := initial;
    var i := 0;
    while i < |data|
      invariant 0 <= i <= |data| && |crc| == |poly|
      invariant crc == Bitwise(poly, initial, data[..i])
    {
      crc := EightTurns(poly, Xor(crc, AtTop(|poly|, |poly|, LowFirst(data[i]))));
      assert data[..i + 1][..i] == data[..i];
      i := i + 1;
    }
    assert data[..i] == data;
  }
}
