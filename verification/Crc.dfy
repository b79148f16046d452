/** The CRC engine (crc.c). The reference is the textbook division circuit: a register of
    `w` bits into which the message enters one bit at a time, high bit first. The firmware
    builds a table of 256 entries and consumes a byte per lookup, in a variable that may be
    wider than the register and whose extra bits are not cleared until the end. */
module Crc {
  import opened BitWord
  import opened Widths

  // ----- The reference ------------------------------------------------------------

  function SerialBit(poly: Word, s: Word, bit: bool): (s': Word)
    requires |s| == |poly| > 0
    ensures |s'| == |s|
  {
    if s[0] != bit then Xor(Up(s), poly) else Up(s)
  }

  function Feed(poly: Word, s: Word, bits: seq<bool>): (s': Word)
    requires |s| == |poly| > 0
    ensures |s'| == |s|
    decreases |bits|
  {
    if bits == [] then s
    else SerialBit(poly, Feed(poly, s, bits[..|bits| - 1]), bits[|bits| - 1])
  }

  function Message(data: seq<uint8>): (bits: seq<bool>)
    ensures |bits| == 8 * |data|
  {
    if data == [] then [] else Message(data[..|data| - 1]) + Bits(8, data[|data| - 1])
  }

  lemma {:induction false} FeedConcat(poly: Word, s: Word, a: seq<bool>, b: seq<bool>)
    requires |s| == |poly| > 0
    ensures Feed(poly, s, a + b) == Feed(poly, Feed(poly, s, a), b)
    decreases |b|
  {
    if b == [] {
      assert a + b == a;
    } else {
      var n := |b| - 1;
      assert (a + b)[..|a| + n] == a + b[..n];
      FeedConcat(poly, s, a, b[..n]);
    }
  }

  // ----- What the register remembers ----------------------------------------------

  /** Every polynomial the firmware uses has a constant term. */
  predicate Odd(poly: Word) { poly != [] && poly[|poly| - 1] }

  predicate AgreeFrom(s: Word, t: Word, k: nat)
    requires |s| == |t|
  {
    forall i :: k <= i < |s| ==> s[i] == t[i]
  }

  lemma StepBack(poly: Word, s: Word, t: Word, a: bool, b: bool, k: nat)
    requires |s| == |t| == |poly| > k && Odd(poly)
    requires AgreeFrom(SerialBit(poly, s, a), SerialBit(poly, t, b), k)
    ensures (s[0] != a) == (t[0] != b) && AgreeFrom(s, t, k + 1)
  {
    var w := |s|;
    var s', t' := SerialBit(poly, s, a), SerialBit(poly, t, b);
    assert s'[w - 1] == (s[0] != a) && t'[w - 1] == (t[0] != b);
    forall i | k + 1 <= i < w ensures s[i] == t[i] {
      assert s'[i - 1] == t'[i - 1];
      assert Up(s)[i - 1] == s[i] && Up(t)[i - 1] == t[i];
    }
  }

  /** The step is a bijection of the register: the same bits keep two registers apart. */
  lemma {:induction false} FeedInjective(poly: Word, s: Word, t: Word, bits: seq<bool>)
    requires |s| == |t| == |poly| && Odd(poly)
    ensures Feed(poly, s, bits) == Feed(poly, t, bits) <==> s == t
    decreases |bits|
  {
    if bits == [] {
    } else {
      var n := |bits| - 1;
      var s1, t1 := Feed(poly, s, bits[..n]), Feed(poly, t, bits[..n]);
      FeedInjective(poly, s, t, bits[..n]);
      if Feed(poly, s, bits) == Feed(poly, t, bits) {
        StepBack(poly, s1, t1, bits[n], bits[n], 0);
        assert s1 == t1;
      }
    }
  }

  /** If two registers agree from position `k` after `n` steps, whatever the bits, they
      agreed from position `k + n` before: each step hides one high position only. */
  lemma {:induction false} Converging(poly: Word, s: Word, t: Word, a: seq<bool>, b: seq<bool>, k: nat)
    requires |s| == |t| == |poly| && Odd(poly) && |a| == |b| && k + |a| <= |poly|
    requires AgreeFrom(Feed(poly, s, a), Feed(poly, t, b), k)
    ensures AgreeFrom(s, t, k + |a|)
    decreases |a|
  {
    if a == [] {
    } else {
      var n := |a| - 1;
      StepBack(poly, Feed(poly, s, a[..n]), Feed(poly, t, b[..n]), a[n], b[n], k);
      Converging(poly, s, t, a[..n], b[..n], k + 1);
    }
  }

  lemma {:induction false} FirstBitShows(poly: Word, s: Word, x: bool, y: bool, a: seq<bool>, b: seq<bool>)
    requires |s| == |poly| && Odd(poly) && |a| == |b| < |poly|
    requires Feed(poly, SerialBit(poly, s, x), a) == Feed(poly, SerialBit(poly, s, y), b)
    ensures x == y
  {
    Converging(poly, SerialBit(poly, s, x), SerialBit(poly, s, y), a, b, 0);
    StepBack(poly, s, s, x, y, |poly| - 1);
  }

  lemma PrefixGrows<T>(a: seq<T>, b: seq<T>, i: nat)
    requires i < |a| && i < |b| && a[..i] == b[..i] && a[i] == b[i]
    ensures a[..i + 1] == b[..i + 1]
  {
    assert a[..i + 1] == a[..i] + [a[i]];
  }

  lemma CutAfter<T>(a: seq<T>, i: nat)
    requires i < |a|
    ensures a == (a[..i] + [a[i]]) + a[i + 1..]
  {
  }

  lemma FeedOne(poly: Word, s: Word, a: seq<bool>, bit: bool)
    requires |s| == |poly| > 0
    ensures Feed(poly, s, a + [bit]) == SerialBit(poly, Feed(poly, s, a), bit)
  {
    assert (a + [bit])[..|a|] == a;
  }

  lemma {:induction false} FeedSplit(poly: Word, s: Word, a: seq<bool>, i: nat)
    requires |s| == |poly| > 0 && i < |a|
    ensures Feed(poly, s, a) == Feed(poly, SerialBit(poly, Feed(poly, s, a[..i]), a[i]), a[i + 1..])
  {
    CutAfter(a, i);
    FeedConcat(poly, s, a[..i] + [a[i]], a[i + 1..]);
    FeedOne(poly, s, a[..i], a[i]);
  }

  /** From the same register, windows no wider than it always leave different registers. */
  lemma {:induction false} WindowPrefix(poly: Word, s: Word, a: seq<bool>, b: seq<bool>, i: nat)
    requires |s| == |poly| && Odd(poly) && i <= |a| == |b| <= |poly|
    requires Feed(poly, s, a) == Feed(poly, s, b)
    ensures a[..i] == b[..i]
    decreases i
  {
    if i == 0 {
    } else {
      WindowPrefix(poly, s, a, b, i - 1);
      FeedSplit(poly, s, a, i - 1);
      FeedSplit(poly, s, b, i - 1);
      FirstBitShows(poly, Feed(poly, s, a[..i - 1]), a[i - 1], b[i - 1], a[i..], b[i..]);
      PrefixGrows(a, b, i - 1);
    }
  }

  lemma {:induction false} WindowInjective(poly: Word, s: Word, a: seq<bool>, b: seq<bool>)
    requires |s| == |poly| && Odd(poly) && |a| == |b| <= |poly|
    ensures Feed(poly, s, a) == Feed(poly, s, b) <==> a == b
  {
    if Feed(poly, s, a) == Feed(poly, s, b) {
      WindowPrefix(poly, s, a, b, |a|);
      assert a[..|a|] == a && b[..|b|] == b;
    }
  }

  lemma {:induction false} FeedAround(poly: Word, s: Word, before: seq<bool>, a: seq<bool>, after: seq<bool>)
    requires |s| == |poly| > 0
    ensures Feed(poly, s, before + a + after) == Feed(poly, Feed(poly, Feed(poly, s, before), a), after)
  {
    FeedConcat(poly, s, before, a);
    FeedConcat(poly, s, before + a, after);
  }

  /** Every burst is noticed: two messages of one length that differ only inside a window
      of consecutive bits no wider than the register have different CRCs. */
  lemma {:induction false} BurstsAreDetected(poly: Word, s: Word, before: seq<bool>,
      a: seq<bool>, b: seq<bool>, after: seq<bool>)
    requires |s| == |poly| && Odd(poly) && |a| == |b| <= |poly|
    ensures Feed(poly, s, before + a + after) == Feed(poly, s, before + b + after) <==> a == b
  {
    var s1 := Feed(poly, s, before);
    FeedAround(poly, s, before, a, after);
    FeedAround(poly, s, before, b, after);
    FeedInjective(poly, Feed(poly, s1, a), Feed(poly, s1, b), after);
    WindowInjective(poly, s1, a, b);
  }

  // ----- The table ----------------------------------------------------------------

  /** One turn of the inner loop that fills the table: the register is the low `w` bits of
      the variable `c`, and nothing clears the bits above it. */
  function Shift(w: nat, poly: Word, c: Word): (c': Word)
    requires 0 < w <= |c| == |poly|
    ensures |c'| == |c|
  {
    if c[|c| - w] then Xor(Up(c), poly) else Up(c)
  }

  function Shifts(w: nat, poly: Word, c: Word, n: nat): (c': Word)
    requires 0 < w <= |c| == |poly|
    ensures |c'| == |c|
  {
    if n == 0 then c else Shift(w, poly, Shifts(w, poly, c, n - 1))
  }

  /** `i << (w - 8)` in a variable of `v` bits */
  function AtTop(v: nat, w: nat, i: Word): (r: Word)
    requires |i| == 8 <= w <= v
    ensures |r| == v
  {
    NoBits(v - w) + i + NoBits(w - 8)
  }

  function TableEntry(w: nat, poly: Word, i: Word): (r: Word)
    requires |i| == 8 <= w <= |poly|
    ensures |r| == |poly|
  {
    Shifts(w, poly, AtTop(|poly|, w, i), 8)
  }

  /** `((crc >> (w - 8)) ^ d) & 0xFF` */
  function TableIndex(w: nat, crc: Word, d: Word): (i: Word)
    requires |d| == 8 <= w <= |crc|
    ensures |i| == 8
  {
    Xor(crc[|crc| - w..][..8], d)
  }

  /** `(crc << 8) ^ table[...]` */
  function TableByte(w: nat, poly: Word, crc: Word, d: Word): (r: Word)
    requires |d| == 8 <= w <= |crc| == |poly|
    ensures |r| == |crc|
  {
    Xor(crc[8..] + NoBits(8), TableEntry(w, poly, TableIndex(w, crc, d)))
  }

  lemma ShiftLinear(poly: Word, x: Word, y: Word)
    requires |x| == |y| == |poly| > 0
    ensures Shift(|x|, poly, Xor(x, y)) == Xor(Shift(|x|, poly, x), Shift(|x|, poly, y))
  {
    XorUp(x, y);
  }

  lemma {:induction false} ShiftsLinear(poly: Word, x: Word, y: Word, n: nat)
    requires |x| == |y| == |poly| > 0
    ensures Shifts(|x|, poly, Xor(x, y), n) == Xor(Shifts(|x|, poly, x, n), Shifts(|x|, poly, y, n))
    decreases n
  {
    if n == 0 {
    } else {
      ShiftsLinear(poly, x, y, n - 1);
      ShiftLinear(poly, Shifts(|x|, poly, x, n - 1), Shifts(|x|, poly, y, n - 1));
    }
  }

  /** What stands above the register never reaches it. */
  lemma {:induction false} ShiftsLow(w: nat, poly: Word, c: Word, n: nat)
    requires 0 < w <= |c| == |poly|
    ensures Low(w, Shifts(w, poly, c, n)) == Shifts(w, Low(w, poly), Low(w, c), n)
    decreases n
  {
    if n == 0 {
    } else {
      ShiftsLow(w, poly, c, n - 1);
      ShiftLow(w, poly, Shifts(w, poly, c, n - 1));
    }
  }

  lemma ShiftLow(w: nat, poly: Word, c: Word)
    requires 0 < w <= |c| == |poly|
    ensures Low(w, Shift(w, poly, c)) == Shift(w, Low(w, poly), Low(w, c))
  {
    assert Low(w, Up(c)) == Up(Low(w, c));
    XorLow(w, Up(c), poly);
  }

  /** Bits that have not reached the top of the register are only moved. */
  lemma {:induction false} ShiftsMove(poly: Word, c: Word, n: nat)
    requires n <= |poly| == |c| && 0 < |c| && forall i :: 0 <= i < n ==> !c[i]
    ensures Shifts(|poly|, poly, c, n) == c[n..] + NoBits(n)
    decreases n
  {
    if n == 0 {
    } else {
      ShiftsMove(poly, c, n - 1);
      var c' := c[n - 1..] + NoBits(n - 1);
      assert !c'[0];
      assert Up(c') == c[n..] + NoBits(n);
    }
  }

  /** Feeding bits and adding them to the register beforehand are the same thing. */
  lemma {:induction false} FeedWord(poly: Word, s: Word, word: Word, n: nat)
    requires |s| == |word| == |poly| >= n && poly != []
    ensures Xor(Feed(poly, s, word[..n]), word[n..] + NoBits(n)) == Shifts(|poly|, poly, Xor(s, word), n)
    decreases n
  {
    if n == 0 {
      assert word[0..] + NoBits(0) == word;
    } else {
      FeedWord(poly, s, word, n - 1);
      assert word[..n][..n - 1] == word[..n - 1];
      var rest := word[n - 1..] + NoBits(n - 1);
      StepAgrees(poly, Feed(poly, s, word[..n - 1]), rest);
      assert Up(rest) == word[n..] + NoBits(n);
    }
  }

  lemma StepAgrees(poly: Word, s: Word, word: Word)
    requires |s| == |word| == |poly| > 0
    ensures Xor(SerialBit(poly, s, word[0]), Up(word)) == Shift(|poly|, poly, Xor(s, word))
  {
    XorUp(s, word);
  }

  lemma {:induction false} ByteIsShifts(poly: Word, s: Word, d: Word)
    requires |d| == 8 <= |s| == |poly|
    ensures Feed(poly, s, d) == Shifts(|poly|, poly, Xor(s, AtTop(|poly|, |poly|, d)), 8)
  {
    var word := AtTop(|poly|, |poly|, d);
    FeedWord(poly, s, word, 8);
    assert word[..8] == d;
    assert word[8..] + NoBits(8) == NoBits(|poly|);
    XorZero(Feed(poly, s, d));
  }

  /** One lookup is eight steps of the circuit, whatever stands above the register. */
  lemma {:induction false} LookupIsEightBits(w: nat, poly: Word, crc: Word, d: Word)
    requires |d| == 8 <= w <= |crc| == |poly|
    ensures Low(w, TableByte(w, poly, crc, d)) == Feed(Low(w, poly), Low(w, crc), d)
  {
    LookupLow(w, poly, crc, d);
    ExactLookup(Low(w, poly), Low(w, crc), d);
  }

  lemma LookupLow(w: nat, poly: Word, crc: Word, d: Word)
    requires |d| == 8 <= w <= |crc| == |poly|
    ensures Low(w, TableByte(w, poly, crc, d)) == TableByte(w, Low(w, poly), Low(w, crc), d)
  {
    var i := TableIndex(w, crc, d);
    IndexLow(w, crc, d);
    ShiftsLow(w, poly, AtTop(|poly|, w, i), 8);
    AtTopLow(|poly|, w, i);
    XorLow(w, crc[8..] + NoBits(8), TableEntry(w, poly, i));
    NextByteLow(w, crc);
  }

  lemma IndexLow(w: nat, crc: Word, d: Word)
    requires |d| == 8 <= w <= |crc|
    ensures TableIndex(w, crc, d) == TableIndex(w, Low(w, crc), d)
  {
    assert Low(w, crc)[|Low(w, crc)| - w..] == crc[|crc| - w..];
  }

  lemma AtTopLow(v: nat, w: nat, i: Word)
    requires |i| == 8 <= w <= v
    ensures Low(w, AtTop(v, w, i)) == AtTop(w, w, i)
  {
  }

  lemma NextByteLow(w: nat, crc: Word)
    requires 8 <= w <= |crc|
    ensures Low(w, crc[8..] + NoBits(8)) == Low(w, crc)[8..] + NoBits(8)
  {
  }

  lemma {:induction false} ExactLookup(poly: Word, c: Word, d: Word)
    requires |d| == 8 <= |c| == |poly|
    ensures TableByte(|c|, poly, c, d) == Feed(poly, c, d)
  {
    var rest := NoBits(8) + c[8..];
    ByteIsShifts(poly, c, d);
    SplitByte(c, d);
    ShiftsLinear(poly, rest, AtTop(|c|, |c|, TableIndex(|c|, c, d)), 8);
    ShiftsMove(poly, rest, 8);
    assert rest[8..] == c[8..];
  }

  lemma SplitByte(c: Word, d: Word)
    requires |d| == 8 <= |c|
    ensures Xor(c, AtTop(|c|, |c|, d))
         == Xor(NoBits(8) + c[8..], AtTop(|c|, |c|, TableIndex(|c|, c, d)))
  {
    assert c[0..] == c;
  }

  // ----- The engines --------------------------------------------------------------

  /** The CRC of a message, bit by bit, from a variable whose low `w` bits are the register. */
  function SerialCrc(w: nat, poly: Word, data: seq<uint8>, crc: Word): (r: Word)
    requires 0 < w <= |crc| == |poly|
    ensures |r| == w
  {
    Feed(Low(w, poly), Low(w, crc), Message(data))
  }

  lemma SerialCrcGrows(w: nat, poly: Word, data: seq<uint8>, d: uint8, crc: Word)
    requires 0 < w <= |crc| == |poly|
    ensures SerialCrc(w, poly, data + [d], crc) == Feed(Low(w, poly), SerialCrc(w, poly, data, crc), Bits(8, d))
  {
    assert (data + [d])[..|data|] == data;
    FeedConcat(Low(w, poly), Low(w, crc), Message(data), Bits(8, d));
  }

  ghost predicate IsTable(w: nat, poly: Word, entries: seq<Word>) {
    && 8 <= w <= |poly| && |entries| == 256
    && forall i :: 0 <= i < 256 ==> entries[i] == TableEntry(w, poly, Bits(8, i))
  }

  lemma LookupInTable(w: nat, poly: Word, entries: seq<Word>, i: Word)
    requires IsTable(w, poly, entries) && |i| == 8
    ensures Value(i) < 256 && entries[Value(i)] == TableEntry(w, poly, i)
  {
    Power8();
    ValueBits(i);
  }

  /** `Crc2Byte_s` and its two functions: registers of 8 to 16 bits in a uint16_t. */
  class Crc2Byte {
    var bits: nat
    var poly: Word
    const table: array<Word>

    ghost predicate Valid()
      reads this, table
    {
      && table.Length == 256 && |poly| == 16
      && (bits != 0 ==> bits <= 16 && IsTable(bits, poly, table[..]))
    }

    /** Static storage starts as zeros. */
    constructor ()
      ensures Valid() && fresh(table) && bits == 0
    {
      bits, poly := 0, NoBits(16);
      table := new Word[256](_ => NoBits(16));
    }

    method Init(bits: nat, poly: Word)
      requires Valid() && 8 <= bits <= 16 && |poly| == 16
      modifies this, table
      ensures Valid() && this.bits == bits && this.poly == poly
    {
      if bits == this.bits && poly == this.poly {
        return;
      }
      this.poly := poly;
      this.bits := bits;
      for i := 0 to 256
        invariant this.bits == bits && this.poly == poly
        invariant forall k :: 0 <= k < i ==> table[k] == TableEntry(bits, poly, Bits(8, k))
      {
        var crc := AtTop(16, bits, Bits(8, i));
        for j := 0 to 8
          invariant crc == Shifts(bits, poly, AtTop(16, bits, Bits(8, i)), j)
          invariant this.bits == bits && this.poly == poly
        {
          crc := Shift(bits, poly, crc);
        }
        table[i] := crc;
      }
    }

    /** The fast form computes the bit-serial CRC, with the bits above the register clear. */
    method Calc(data: seq<uint8>, initial: Word) returns (r: Word)
      requires Valid() && bits != 0 && |initial| == 16
      ensures r == NoBits(16 - bits) + SerialCrc(bits, poly, data, initial)
    {
      var crc := initial;
      var k := 0;
      while k < |data|
        invariant 0 <= k <= |data| && |crc| == 16
        invariant Low(bits, crc) == SerialCrc(bits, poly, data[..k], initial)
      {
        var i := TableIndex(bits, crc, Bits(8, data[k]));
        LookupInTable(bits, poly, table[..], i);
        LookupIsEightBits(bits, poly, crc, Bits(8, data[k]));
        SerialCrcGrows(bits, poly, data[..k], data[k], initial);
        assert data[..k + 1] == data[..k] + [data[k]];
        crc := Xor(crc[8..] + NoBits(8), table[Value(i)]);
        k := k + 1;
      }
      assert data[..k] == data;
      r := NoBits(16 - bits) + Low(bits, crc);
    }
  }

  /** The 8-bit engine: register, variable and index are one byte. */
  class GenericCrc8 {
    ghost var poly: Word
    const table: array<Word>

    ghost predicate Valid()
      reads this, table
    {
      |poly| == 8 && IsTable(8, poly, table[..])
    }

    constructor Init(poly: Word)
      requires |poly| == 8
      ensures Valid() && fresh(table) && this.poly == poly
    {
      this.poly := poly;
      table := new Word[256](_ => NoBits(8));
      new;
      for i := 0 to 256
        invariant this.poly == poly && table.Length == 256 && fresh(table)
        invariant forall k :: 0 <= k < i ==> table[k] == TableEntry(8, poly, Bits(8, k))
      {
        var crc := Bits(8, i);
        assert crc == AtTop(8, 8, crc);
        for j := 0 to 8
          invariant crc == Shifts(8, poly, AtTop(8, 8, Bits(8, i)), j)
        {
          crc := if crc[0] then Xor(Up(crc), poly) else Up(crc);
        }
        table[i] := crc;
      }
    }

    method Calc(data: seq<uint8>, initial: Word) returns (crc: Word)
      requires Valid() && |initial| == 8
      ensures crc == SerialCrc(8, poly, data, initial)
    {
      crc := initial;
      var k := 0;
      while k < |data|
        invariant 0 <= k <= |data| && |crc| == 8
        invariant crc == SerialCrc(8, poly, data[..k], initial)
      {
        var i := Xor(crc, Bits(8, data[k]));
        LookupInTable(8, poly, table[..], i);
        ByteLookup(poly, crc, Bits(8, data[k]));
        SerialCrcGrows(8, poly, data[..k], data[k], initial);
        assert data[..k + 1] == data[..k] + [data[k]];
        assert Low(8, poly) == poly;
        crc := table[Value(i)];
        k := k + 1;
      }
      assert data[..k] == data;
    }
  }

  lemma ByteLookup(poly: Word, crc: Word, d: Word)
    requires |poly| == |crc| == |d| == 8
    ensures TableEntry(8, poly, Xor(crc, d)) == Feed(poly, crc, d)
  {
    ExactLookup(poly, crc, d);
    assert crc[0..] == crc && crc[..8] == crc;
    assert crc[8..] + NoBits(8) == NoBits(8);
    var e := TableEntry(8, poly, Xor(crc, d));
    assert Xor(NoBits(8), e) == e;
  }
}
