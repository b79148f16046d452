/** The management frames that the firmware (unified_config.c) and the host tool
    (tk8620_configurator.py) exchange over a UART that also carries foreign bytes. */
module ConfigFrames {
  import opened Bytes
  import opened ReflectedCrc
  import opened Widths

  /** "TKELRSCF" */
  const MAGIC: seq<uint8> := [0x54, 0x4B, 0x45, 0x4C, 0x52, 0x53, 0x43, 0x46]
  const PROTOCOL_VERSION: uint8 := 1
  const MAX_PAYLOAD := 20
  const MAX_FRAME := 40

  const CMD_HELLO: uint8 := 1
  const CMD_HELLO_ACK: uint8 := 2
  const CMD_GET_INFO: uint8 := 3
  const CMD_GET_CONFIG: uint8 := 4
  const CMD_SET_MODE: uint8 := 5
  const CMD_REBOOT: uint8 := 6
  const CMD_ERROR: uint8 := 0x7F

  /** The checksum over a byte string. Nothing about frames, records or the session depends
      on which one it is, so the theorems are for every checksum; FirmwareCrc and the
      zlib CRC of the host tool are the two in use, and they are equal. */
  type Checksum = seq<uint8> -> uint32

  function FirmwareCrc(data: seq<uint8>): (r: uint32) { Crc32Update(0, data) }

  datatype Frame = Frame(command: uint8, sequence: uint8, challenge: uint32, payload: seq<uint8>) {
    predicate Fits() { |payload| <= MAX_PAYLOAD }
  }

  function Body(f: Frame): (b: seq<uint8>)
    requires f.Fits()
    ensures |b| == 16 + |f.payload|
  {
    MAGIC + [PROTOCOL_VERSION, f.command, f.sequence, |f.payload|] + Le32(f.challenge) + f.payload
  }

  /** `frame_build` of the firmware and `build_frame` of the host tool */
  function FrameBuild(crc: Checksum, f: Frame): (b: seq<uint8>)
    requires f.Fits()
    ensures |b| == 20 + |f.payload| <= MAX_FRAME
  {
    Body(f) + Le32(crc(Body(f)))
  }

  /** Firmware and tool write the same bytes and accept the same bytes. */
  lemma EndsAgree(f: Frame, b: seq<uint8>)
    requires f.Fits()
    ensures FrameBuild(FirmwareCrc, f) == FrameBuild(ZlibCrc32, f)
    ensures FrameIsValid(FirmwareCrc, b) <==> FrameIsValid(ZlibCrc32, b)
  {
    FirmwareAgreesWithZlib(Body(f));
    if |b| >= 20 {
      FirmwareAgreesWithZlib(b[..|b| - 4]);
    }
  }

  /** `frame_is_valid` */
  predicate FrameIsValid(crc: Checksum, b: seq<uint8>) {
    && |b| >= 20
    && b[..8] == MAGIC
    && b[8] == PROTOCOL_VERSION
    && b[11] <= MAX_PAYLOAD
    && |b| == 20 + b[11]
    && Read32(b, |b| - 4) == crc(b[..|b| - 4])
  }

  function FrameOf(crc: Checksum, b: seq<uint8>): (f: Frame)
    requires FrameIsValid(crc, b)
    ensures f.Fits()
  {
    Frame(b[9], b[10], Read32(b, 12), b[16..|b| - 4])
  }

  lemma BodyFields(f: Frame, tail: seq<uint8>)
    requires f.Fits()
    ensures var b := Body(f) + tail;
            && b[..8] == MAGIC && b[8] == PROTOCOL_VERSION && b[9] == f.command && b[10] == f.sequence
            && b[11] == |f.payload| && Read32(b, 12) == f.challenge && b[16..|b| - |tail|] == f.payload
            && b[..|b| - |tail|] == Body(f)
  {
    var before := MAGIC + [PROTOCOL_VERSION, f.command, f.sequence, |f.payload|];
    assert Body(f) + tail == before + Le32(f.challenge) + (f.payload + tail);
    ReadAt32(before, f.challenge, f.payload + tail);
    assert before[..8] == MAGIC;
  }

  /** What frame_build writes is valid and carries its arguments. */
  lemma BuiltFrame(crc: Checksum, f: Frame)
    requires f.Fits()
    ensures FrameIsValid(crc, FrameBuild(crc, f)) && FrameOf(crc, FrameBuild(crc, f)) == f
  {
    BodyFields(f, Le32(crc(Body(f))));
    ReadAt32(Body(f), crc(Body(f)), []);
    assert FrameBuild(crc, f) == FrameBuild(crc, f) + [];
  }

  lemma LeOf(s: seq<uint8>, i: nat)
    requires i + 4 <= |s|
    ensures Le32(Read32(s, i)) == s[i..i + 4]
  {
    WriteBack32(s[i], s[i + 1], s[i + 2], s[i + 3]);
  }

  /** And nothing else is valid: the check accepts exactly the frames that can be built. */
  lemma ValidFramesAreBuilt(crc: Checksum, b: seq<uint8>)
    requires FrameIsValid(crc, b)
    ensures b == FrameBuild(crc, FrameOf(crc, b))
  {
    var f, n := FrameOf(crc, b), |b|;
    LeOf(b, 12);
    LeOf(b, n - 4);
    assert b[..n - 4] == b[..8] + [b[8], b[9], b[10], b[11]] + b[12..16] + b[16..n - 4];
    assert b[..n - 4] == Body(f);
    assert b == b[..n - 4] + b[n - 4..n];
  }

  /** The first byte of the magic occurs nowhere else in it, so the magic has no border. */
  lemma MagicHasNoBorder(k: nat)
    requires 0 < k < |MAGIC|
    ensures MAGIC[k] != MAGIC[0]
  {
  }

  predicate OccursAt(s: seq<uint8>, i: int) {
    0 <= i && i + |MAGIC| <= |s| && s[i..i + |MAGIC|] == MAGIC
  }

  predicate Occurs(s: seq<uint8>) {
    exists i :: 0 <= i < |s| && OccursAt(s, i)
  }
}
