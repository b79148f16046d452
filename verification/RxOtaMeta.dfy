/** The 40-byte description of a staged receiver image: written by the flasher
    (build_rx_ota_meta), checked by the transmitter before it sends (metaRead). */
module RxOtaMeta {
  import opened Bytes
  import opened ReflectedCrc
  import opened Widths

  const META_SIZE := 40
  const META_COVERED := 36
  const META_MAGIC := 0x4154_4F52
  const META_VERSION := 1
  const IMAGE_START := 0x4_1000
  const IMAGE_MAX := 0x2_2800

  /** The checksum over the first 36 bytes: both sides use `Crc16Modbus`. */
  type Checksum16 = seq<uint8> -> uint16

  datatype Meta = Meta(imageOffset: uint32, firmwareLen: uint32, firmwareCrc: uint32, freq: uint32,
                       version: seq<uint8>, targetId: seq<uint8>) {
    predicate Shaped() { |version| == 4 && |targetId| == 8 }

    /** What the sender demands of the image. */
    predicate InRegion() { imageOffset == IMAGE_START && 0 < firmwareLen <= IMAGE_MAX }
  }

  datatype MetaResult = Rejected | Accepted(meta: Meta)

  function Header(m: Meta): (h: seq<uint8>)
    requires m.Shaped()
    ensures |h| == META_COVERED
  {
    Le32(META_MAGIC) + Le16(META_VERSION) + Le16(META_SIZE) + Le32(m.imageOffset) + Le32(m.firmwareLen)
    + Le32(m.firmwareCrc) + Le32(m.freq) + m.version + m.targetId
  }

  /** `build_rx_ota_meta` */
  function BuildMeta(crc: Checksum16, m: Meta): (b: seq<uint8>)
    requires m.Shaped()
    ensures |b| == META_SIZE
  {
    Header(m) + Le16(crc(Header(m))) + Le16(0xFFFF)
  }

  function MetaOf(b: seq<uint8>): (m: Meta)
    requires |b| == META_SIZE
    ensures m.Shaped()
  {
    Meta(Read32(b, 8), Read32(b, 12), Read32(b, 16), Read32(b, 20), b[24..28], b[28..36])
  }

  /** `metaRead`; `readOk` is what the flash driver reports. */
  function MetaRead(crc: Checksum16, readOk: bool, b: seq<uint8>): (r: MetaResult)
    requires |b| == META_SIZE
    ensures r.Accepted? ==> r.meta.Shaped() && r.meta.InRegion()
  {
    if !readOk then Rejected
    else if Read32(b, 0) != META_MAGIC || Read16(b, 4) != META_VERSION || Read16(b, 6) != META_SIZE then Rejected
    else if crc(b[..META_COVERED]) != Read16(b, 36) then Rejected
    else
      var m := MetaOf(b);
      if m.imageOffset != IMAGE_START || m.firmwareLen == 0 || m.firmwareLen > IMAGE_MAX
         || m.imageOffset as int + m.firmwareLen > IMAGE_START + IMAGE_MAX then Rejected
      else Accepted(m)
  }

  lemma HeaderFields(m: Meta, tail: seq<uint8>)
    requires m.Shaped()
    ensures var b := Header(m) + tail;
            && b[0..4] == Le32(META_MAGIC) && b[4..6] == Le16(META_VERSION) && b[6..8] == Le16(META_SIZE)
            && b[8..12] == Le32(m.imageOffset) && b[12..16] == Le32(m.firmwareLen)
            && b[16..20] == Le32(m.firmwareCrc) && b[20..24] == Le32(m.freq)
            && b[24..28] == m.version && b[28..36] == m.targetId && b[..36] == Header(m) && b[36..] == tail
  {
  }

  lemma ReadSlice32(b: seq<uint8>, i: nat, x: uint32)
    requires i + 4 <= |b| && b[i..i + 4] == Le32(x)
    ensures Read32(b, i) == x
  {
    ReadBack32(x);
    var s := b[i..i + 4];
    assert s[0] == b[i] && s[1] == b[i + 1] && s[2] == b[i + 2] && s[3] == b[i + 3];
  }

  lemma ReadSlice16(b: seq<uint8>, i: nat, x: uint16)
    requires i + 2 <= |b| && b[i..i + 2] == Le16(x)
    ensures Read16(b, i) == x
  {
    ReadBack16(x);
    var s := b[i..i + 2];
    assert s[0] == b[i] && s[1] == b[i + 1];
  }

  lemma BuiltFields(crc: Checksum16, m: Meta)
    requires m.Shaped()
    ensures var b := BuildMeta(crc, m);
            && Read32(b, 0) == META_MAGIC && Read16(b, 4) == META_VERSION && Read16(b, 6) == META_SIZE
            && MetaOf(b) == m && b[..META_COVERED] == Header(m) && Read16(b, 36) == crc(Header(m))
  {
    var b, tail := BuildMeta(crc, m), Le16(crc(Header(m))) + Le16(0xFFFF);
    assert b == Header(m) + tail;
    HeaderFields(m, tail);
    ReadSlice32(b, 0, META_MAGIC);
    ReadSlice16(b, 4, META_VERSION);
    ReadSlice16(b, 6, META_SIZE);
    ReadSlice32(b, 8, m.imageOffset);
    ReadSlice32(b, 12, m.firmwareLen);
    ReadSlice32(b, 16, m.firmwareCrc);
    ReadSlice32(b, 20, m.freq);
    assert b[36..38] == tail[..2] == Le16(crc(Header(m)));
    ReadSlice16(b, 36, crc(Header(m)));
  }

  /** The sender accepts a description that the flasher built exactly when the image is in
      the staging region, and then reads back every field. */
  lemma BuiltMetaIsAccepted(crc: Checksum16, m: Meta)
    requires m.Shaped()
    ensures MetaRead(crc, true, BuildMeta(crc, m)) == if m.InRegion() then Accepted(m) else Rejected
  {
    BuiltFields(crc, m);
  }

  /** Both ends in fact use CRC-16/MODBUS. */
  lemma FlasherMetaIsAccepted(m: Meta)
    requires m.Shaped()
    ensures MetaRead(Crc16Modbus, true, BuildMeta(Crc16Modbus, m)) == if m.InRegion() then Accepted(m) else Rejected
  {
    BuiltMetaIsAccepted(Crc16Modbus, m);
  }
}
