/** C integer widths. Values are mathematical integers inside their range; every
    place where the firmware lets a counter wrap says so with a `Wrap` function. */
module Widths {
  type uint8 = x: int | 0 <= x < 0x100
  type uint16 = x: int | 0 <= x < 0x1_0000
  type uint32 = x: int | 0 <= x < 0x1_0000_0000

  function Wrap8(x: int): uint8 { x % 0x100 }

  function Wrap16(x: int): uint16 { x % 0x1_0000 }

  function Wrap32(x: int): uint32 { x % 0x1_0000_0000 }

  function Min(a: int, b: int): int { if a < b then a else b }

  /** `(int32_t)(now - at) >= 0`, the firmware's comparison of millisecond clocks. */
  predicate Reached(now: uint32, at: uint32) {
    Wrap32(now - at) < 0x8000_0000
  }

  /** The comparison is right, across the wrap of the clock, while the two instants are
      less than 2^31 ms apart. */
  lemma ReachedMeansPast(t: int, at: int, offset: int)
    requires -0x8000_0000 <= t - at < 0x8000_0000
    ensures Reached(Wrap32(t + offset), Wrap32(at + offset)) <==> t >= at
  {
    WrapDifference(t + offset, at + offset);
  }

  lemma WrapDifference(a: int, b: int)
    ensures Wrap32(Wrap32(a) - Wrap32(b)) == Wrap32(a - b)
  {
    var m := 0x1_0000_0000;
    var qa, qb := a / m, b / m;
    assert a == qa * m + Wrap32(a) && b == qb * m + Wrap32(b);
    assert a - b == (qa - qb) * m + (Wrap32(a) - Wrap32(b));
    WrapMultiple(Wrap32(a) - Wrap32(b), qa - qb);
  }

  lemma WrapMultiple(x: int, k: int)
    ensures Wrap32(x + k * 0x1_0000_0000) == Wrap32(x)
  {
  }

  lemma WrapSum(a: int, b: int)
    ensures Wrap32(Wrap32(a) + b) == Wrap32(a + b)
  {
    var m := 0x1_0000_0000;
    assert a + b == (Wrap32(a) + b) + (a / m) * m;
    WrapMultiple(Wrap32(a) + b, a / m);
  }

  function Zeros(n: nat): (z: seq<uint8>)
    ensures |z| == n
  {
    seq(n, _ => 0)
  }
}
