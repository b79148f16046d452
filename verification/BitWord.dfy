/** Machine words as bit strings, most significant bit first, for the code that shifts and
    XORs. A C integer of n bits is a word of length n; a reflected register (crc32) is
    written least significant bit first, which turns its right shifts into left ones. */
module BitWord {
  type Word = seq<bool>

  function NoBits(n: nat): (z: Word)
    ensures |z| == n && forall i :: 0 <= i < n ==> !z[i]
  {
    seq(n, _ => false)
  }

  function Xor(a: Word, b: Word): (r: Word)
    requires |a| == |b|
    ensures |r| == |a| && forall i :: 0 <= i < |a| ==> r[i] == (a[i] != b[i])
  {
    seq(|a|, i requires 0 <= i < |a| => a[i] != b[i])
  }

  /** `a << 1` */
  function Up(a: Word): (r: Word)
    requires a != []
    ensures |r| == |a|
  {
    a[1..] + [false]
  }

  /** `a & ((1 << w) - 1)`, kept as a word of w bits */
  function Low(w: nat, a: Word): (r: Word)
    requires w <= |a|
    ensures |r| == w
  {
    a[|a| - w..]
  }

  function Power(n: nat): (p: nat)
    ensures p > 0
  {
    if n == 0 then 1 else 2 * Power(n - 1)
  }

  /** The n-bit word of the integer `x`. */
  function Bits(n: nat, x: nat): (r: Word)
    ensures |r| == n
  {
    if n == 0 then [] else Bits(n - 1, x / 2) + [x % 2 == 1]
  }

  function Value(a: Word): (x: nat)
    ensures x < Power(|a|)
  {
    if a == [] then 0 else 2 * Value(a[..|a| - 1]) + (if a[|a| - 1] then 1 else 0)
  }

  function Reverse(a: Word): (r: Word)
    ensures |r| == |a| && forall i :: 0 <= i < |a| ==> r[i] == a[|a| - 1 - i]
  {
    if a == [] then [] else Reverse(a[1..]) + [a[0]]
  }

  /** A word and its integer determine each other. */
  lemma {:induction false} ValueBits(a: Word)
    ensures Bits(|a|, Value(a)) == a
  {
    if a == [] {
    } else {
      ValueBits(a[..|a| - 1]);
    }
  }

  lemma {:induction false} BitsValue(n: nat, x: nat)
    requires x < Power(n)
    ensures Value(Bits(n, x)) == x
    decreases n
  {
    if n == 0 {
    } else {
      BitsValue(n - 1, x / 2);
      assert Bits(n, x)[..n - 1] == Bits(n - 1, x / 2);
    }
  }

  lemma BitsInjective(n: nat, x: nat, y: nat)
    requires x < Power(n) && y < Power(n)
    ensures Bits(n, x) == Bits(n, y) <==> x == y
  {
    BitsValue(n, x);
    BitsValue(n, y);
  }

  lemma Power8()
    ensures Power(8) == 0x100
  {
    assert Power(4) == 16;
  }

  lemma XorZero(a: Word)
    ensures Xor(a, NoBits(|a|)) == a
  {
  }

  lemma XorUp(a: Word, b: Word)
    requires |a| == |b| > 0
    ensures Up(Xor(a, b)) == Xor(Up(a), Up(b))
  {
  }

  lemma XorLow(w: nat, a: Word, b: Word)
    requires |a| == |b| >= w
    ensures Low(w, Xor(a, b)) == Xor(Low(w, a), Low(w, b))
  {
  }

  /** XOR with a fixed word loses nothing. */
  lemma XorCancels(a: Word, b: Word, c: Word)
    requires |a| == |b| == |c|
    ensures Xor(a, c) == Xor(b, c) <==> a == b
  {
    if Xor(a, c) == Xor(b, c) {
      forall i | 0 <= i < |a| ensures a[i] == b[i] {
        assert Xor(a, c)[i] == Xor(b, c)[i];
      }
    }
  }
}
