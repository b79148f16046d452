/** Little-endian fields in byte strings. */
module Bytes {
  import opened Widths

  function Le16(x: uint16): (s: seq<uint8>)
    ensures |s| == 2
  {
    [x % 0x100, x / 0x100]
  }

  function Le32(x: uint32): (s: seq<uint8>)
    ensures |s| == 4
  {
    [x % 0x100, x / 0x100 % 0x100, x / 0x1_0000 % 0x100, x / 0x100_0000]
  }

  function Read16(s: seq<uint8>, i: nat): (x: uint16)
    requires i + 2 <= |s|
  {
    (s[i] as int) + 0x100 * (s[i + 1] as int)
  }

  function Read32(s: seq<uint8>, i: nat): (x: uint32)
    requires i + 4 <= |s|
  {
    var (a: int, b: int, c: int, d: int) := (s[i], s[i + 1], s[i + 2], s[i + 3]);
    a + 0x100 * b + 0x1_0000 * c + 0x100_0000 * d
  }

  lemma ReadBack16(x: uint16)
    ensures Read16(Le16(x), 0) == x
  {
  }

  lemma ReadBack32(x: uint32)
    ensures Read32(Le32(x), 0) == x
  {
    var a, b := x / 0x100, x / 0x1_0000;
    assert b == a / 0x100 && x / 0x100_0000 == b / 0x100;
    assert x == x % 0x100 + 0x100 * a;
    assert a == a % 0x100 + 0x100 * b;
    assert b == b % 0x100 + 0x100 * (b / 0x100);
  }

  lemma WriteBack32(a: uint8, b: uint8, c: uint8, d: uint8)
    ensures Le32(Read32([a, b, c, d], 0)) == [a, b, c, d]
  {
    var x: int := Read32([a, b, c, d], 0);
    assert x == a + 0x100 * (b + 0x100 * (c + 0x100 * d));
    assert x / 0x100 == b + 0x100 * (c + 0x100 * d) && x % 0x100 == a;
    assert x / 0x1_0000 == (x / 0x100) / 0x100 == c + 0x100 * d;
    assert x / 0x100_0000 == (x / 0x1_0000) / 0x100 == d;
  }

  /** A field read in the middle of a byte string. */
  lemma ReadAt32(before: seq<uint8>, x: uint32, after: seq<uint8>)
    ensures Read32(before + Le32(x) + after, |before|) == x
  {
    ReadBack32(x);
    var s := before + Le32(x) + after;
    assert s[|before|] == Le32(x)[0] && s[|before| + 1] == Le32(x)[1];
    assert s[|before| + 2] == Le32(x)[2] && s[|before| + 3] == Le32(x)[3];
  }
}
