/** Four 11-bit channels in five bytes, ten bits each (OTA.c of both ends). Words are
    written low bit first, so the packed bytes, one after the other, are simply the ten-bit
    fields, one after the other. */
module ChannelBits {
  import opened BitWord
  import opened ReflectedCrc
  import opened Widths

  type Byte = w: Word | |w| == 8 witness seq(8, _ => false)

  function Or(a: Word, b: Word): (r: Word)
    requires |a| == |b|
    ensures |r| == |a| && forall i :: 0 <= i < |a| ==> r[i] == (a[i] || b[i])
  {
    seq(|a|, i requires 0 <= i < |a| => a[i] || b[i])
  }

  /** `w << n`, in the width of `w` */
  function ShiftL(w: Word, n: nat): (r: Word)
    requires n <= |w|
    ensures |r| == |w|
  {
    NoBits(n) + w[..|w| - n]
  }

  /** `w >> n` */
  function ShiftR(w: Word, n: nat): (r: Word)
    requires n <= |w|
    ensures |r| == |w|
  {
    w[n..] + NoBits(n)
  }

  /** `Decimate11to10_Div2`: the lowest bit is dropped. */
  function Decimate(v: uint32): (r: Word)
    ensures |r| == 32
  {
    ShiftR(FromInt(32, v), 1)
  }

  /** The ten bits that travel for the value `v`. */
  function Ten(v: uint32): (r: Word)
    ensures |r| == 10
  {
    Decimate(v)[..10]
  }

  /** A channel value of the CRSF range. */
  predicate IsChannel(v: uint32) { v < 2048 }

  function Flat(bytes: seq<Byte>): (r: Word)
    ensures |r| == 8 * |bytes|
  {
    if bytes == [] then [] else Flat(bytes[..|bytes| - 1]) + bytes[|bytes| - 1]
  }

  function Stream(vs: seq<uint32>): (r: Word)
    ensures |r| == 10 * |vs|
  {
    if vs == [] then [] else Stream(vs[..|vs| - 1]) + Ten(vs[|vs| - 1])
  }

  /** Above the ten bits a decimated channel is clear. */
  lemma {:induction false} HighBitsAreClear(n: nat, v: nat, k: nat)
    requires k <= n && v < Power(k)
    ensures forall i :: k <= i < n ==> !FromInt(n, v)[i]
    decreases n
  {
    if n == 0 {
    } else {
      FromIntSplits(n, v);
      if k > 0 {
        HighBitsAreClear(n - 1, v / 2, k - 1);
      } else {
        HighBitsAreClear(n - 1, v / 2, 0);
      }
    }
  }

  lemma FromIntSplits(n: nat, v: nat)
    requires n > 0
    ensures FromInt(n, v) == [v % 2 == 1] + FromInt(n - 1, v / 2)
  {
    ReverseSnoc(Bits(n - 1, v / 2), v % 2 == 1);
  }

  lemma {:induction false} ReverseSnoc(a: Word, x: bool)
    ensures Reverse(a + [x]) == [x] + Reverse(a)
  {
    forall i | 0 <= i < |a| + 1 ensures Reverse(a + [x])[i] == ([x] + Reverse(a))[i] {
    }
  }

  lemma DecimatedIsTenBits(v: uint32)
    requires IsChannel(v)
    ensures Decimate(v) == Ten(v) + NoBits(22)
  {
    assert Power(11) == 2048 by { assert Power(8) == 256; }
    HighBitsAreClear(32, v, 11);
  }

  // ----- Packing ------------------------------------------------------------------

  /** The two bytes that one channel touches, when `k` bits of the first are in use. */
  lemma PackStep(low: Byte, chVal: Word, k: nat)
    requires |chVal| == 32 && k <= 6 && chVal[10..] == NoBits(22) && low[k..] == NoBits(8 - k)
    ensures var first := Or(low, ShiftL(chVal, k)[..8]);
            var second := ShiftR(chVal, 8 - k)[..8];
            && first + second[..k + 2] == low[..k] + chVal[..10]
            && second[k + 2..] == NoBits(6 - k)
  {
    var first, second := Or(low, ShiftL(chVal, k)[..8]), ShiftR(chVal, 8 - k)[..8];
    forall i | 0 <= i < 8 ensures first[i] == (if i < k then low[i] else chVal[i - k]) {
      if i >= k {
        assert !low[k..][i - k];
      }
    }
    forall i | k + 2 <= i < 8 ensures !second[i] {
      assert !chVal[10..][i - (k + 2)];
    }
    assert first + second[..k + 2] == low[..k] + chVal[..10];
  }

  lemma Regroup(a: Word, first: Word, second: Word, low: Word, ten: Word)
    requires first + second == low + ten
    ensures (a + first) + second == (a + low) + ten
  {
    assert (a + first) + second == a + (first + second);
  }

  /** What the first `ch` channels have left in the bytes. */
  ghost predicate Packed(bytes: seq<Byte>, ch: nat, stream: Word)
    requires ch < |bytes| && ch <= 4
  {
    Flat(bytes[..ch]) + bytes[ch][..2 * ch] == stream && bytes[ch][2 * ch..] == NoBits(8 - 2 * ch)
  }

  lemma PackedNext(bytes: seq<Byte>, ch: nat, stream: Word, chVal: Word, next: seq<Byte>)
    requires |bytes| == |next| == 5 && ch < 4 && Packed(bytes, ch, stream)
    requires |chVal| == 32 && chVal[10..] == NoBits(22)
    requires next == bytes[ch := Or(bytes[ch], ShiftL(chVal, 2 * ch)[..8])][ch + 1 := ShiftR(chVal, 8 - 2 * ch)[..8]]
    ensures Packed(next, ch + 1, stream + chVal[..10])
  {
    PackStep(bytes[ch], chVal, 2 * ch);
    assert next[..ch] == bytes[..ch];
    FlatGrows(next, ch);
    Regroup(Flat(bytes[..ch]), next[ch], next[ch + 1][..2 * ch + 2], bytes[ch][..2 * ch], chVal[..10]);
  }

  /** `PackUInt11ToChannels4x10`, with the decimation that full packets use. */
  method Pack(src: seq<uint32>, dest: array<Byte>)
    requires |src| == 4 && dest.Length == 5 && forall i :: 0 <= i < 4 ==> IsChannel(src[i])
    modifies dest
    ensures Flat(dest[..]) == Stream(src)
  {
    dest[0] := NoBits(8);
    var d, destShift := 0, 0;
    assert Packed(dest[..], 0, Stream(src[..0]));
    for ch := 0 to 4
      invariant d == ch && destShift == 2 * ch
      invariant Packed(dest[..], ch, Stream(src[..ch]))
    {
      var chVal := Decimate(src[ch]);
      ghost var bytes := dest[..];
      dest[d] := Or(dest[d], ShiftL(chVal, destShift)[..8]);
      d := d + 1;
      var srcBitsLeft := 2 + destShift;
      dest[d] := ShiftR(chVal, 10 - srcBitsLeft)[..8];
      destShift := srcBitsLeft;
      DecimatedIsTenBits(src[ch]);
      PackedNext(bytes, ch, Stream(src[..ch]), chVal, dest[..]);
      StreamGrows(src, ch);
    }
    AllPacked(dest[..], Stream(src[..4]));
    assert src[..4] == src;
  }

  lemma AllPacked(bytes: seq<Byte>, stream: Word)
    requires |bytes| == 5 && Packed(bytes, 4, stream)
    ensures Flat(bytes) == stream
  {
    assert bytes[4][..8] == bytes[4];
    FlatGrows(bytes, 4);
    assert bytes[..5] == bytes;
  }

  lemma FlatGrows(bytes: seq<Byte>, n: nat)
    requires n < |bytes|
    ensures Flat(bytes[..n + 1]) == Flat(bytes[..n]) + bytes[n]
  {
    assert bytes[..n + 1][..n] == bytes[..n];
  }

  lemma StreamGrows(vs: seq<uint32>, n: nat)
    requires n < |vs|
    ensures Stream(vs[..n + 1]) == Stream(vs[..n]) + Ten(vs[n])
  {
    assert vs[..n + 1][..n] == vs[..n];
  }

  // ----- Unpacking ----------------------------------------------------------------

  /** The channel value that a ten-bit field stands for. */
  function Expand(ten: Word): (v: uint32)
    requires |ten| == 10
  {
    Powers();
    ToInt(ShiftL(ten + NoBits(22), 1))
  }

  function Field(stream: Word, n: nat): (ten: Word)
    requires 10 * n + 10 <= |stream|
    ensures |ten| == 10
  {
    stream[10 * n..10 * n + 10]
  }

  lemma TakeByte(read: Word, byte: Byte, merged: nat, stream: Word, from: nat)
    requires |read| == 32 && merged < 10 && from + merged + 8 <= |stream|
    requires read == stream[from..from + merged] + NoBits(32 - merged)
    requires byte == stream[from + merged..from + merged + 8]
    ensures Or(read, ShiftL(byte + NoBits(24), merged)) == stream[from..from + merged + 8] + NoBits(32 - merged - 8)
  {
    var shifted := ShiftL(byte + NoBits(24), merged);
    var r := stream[from..from + merged + 8] + NoBits(32 - merged - 8);
    forall i | 0 <= i < 32 ensures Or(read, shifted)[i] == r[i] {
    }
  }

  lemma {:induction false} FlatSlice(bytes: seq<Byte>, n: nat)
    requires n < |bytes|
    ensures Flat(bytes)[8 * n..8 * n + 8] == bytes[n]
    decreases |bytes|
  {
    var last := |bytes| - 1;
    if n < last {
      FlatSlice(bytes[..last], n);
      assert Flat(bytes)[8 * n..8 * n + 8] == Flat(bytes[..last])[8 * n..8 * n + 8];
    }
  }

  /** The inner loop: bytes are merged until ten bits are there. */
  method MergeBytes(payload: seq<Byte>, read0: Word, merged0: nat, index0: nat, ghost from: nat)
      returns (read: Word, merged: nat, index: nat)
    requires merged0 < 10 && 8 * index0 == from + merged0 && from + 10 <= 8 * |payload|
    requires read0 == Flat(payload)[from..from + merged0] + NoBits(32 - merged0)
    ensures 10 <= merged < 18 && 8 * index == from + merged <= 8 * |payload|
    ensures read == Flat(payload)[from..from + merged] + NoBits(32 - merged)
  {
    read, merged, index := read0, merged0, index0;
    while merged < 10
      invariant merged < 18 && 8 * index == from + merged <= 8 * |payload|
      invariant read == Flat(payload)[from..from + merged] + NoBits(32 - merged)
    {
      FlatSlice(payload, index);
      TakeByte(read, payload[index], merged, Flat(payload), from);
      read := Or(read, ShiftL(payload[index] + NoBits(24), merged));
      index := index + 1;
      merged := merged + 8;
    }
  }

  /** One turn of the loop: the next channel's value, and what is left in the accumulator. */
  method UnpackOne(payload: seq<Byte>, read0: Word, merged0: nat, index0: nat, ghost n: nat)
      returns (v: uint32, read: Word, merged: nat, index: nat)
    requires merged0 < 10 && 8 * index0 == 10 * n + merged0 && 10 * n + 10 <= 8 * |payload|
    requires read0 == Flat(payload)[10 * n..10 * n + merged0] + NoBits(32 - merged0)
    ensures v == Expand(Field(Flat(payload), n))
    ensures merged < 8 && 8 * index == 10 * (n + 1) + merged <= 8 * |payload|
    ensures read == Flat(payload)[10 * (n + 1)..10 * (n + 1) + merged] + NoBits(32 - merged)
  {
    read, merged, index := MergeBytes(payload, read0, merged0, index0, 10 * n);
    NextField(read, Flat(payload), n, merged);
    v := Expand(read[..10]);
    read := ShiftR(read, 10);
    merged := merged - 10;
  }

  /** `UnpackChannels4x10ToUInt11` */
  method Unpack(payload: seq<Byte>, dest: array<uint32>, from: nat)
    requires |payload| == 5 && from + 4 <= dest.Length
    modifies dest
    ensures forall n :: 0 <= n < 4 ==> dest[from + n] == Expand(Field(Flat(payload), n))
    ensures forall i :: 0 <= i < dest.Length && !(from <= i < from + 4) ==> dest[i] == old(dest[i])
  {
    var bitsMerged, readByteIndex := 0, 0;
    var readValue := NoBits(32);
    assert readValue == Flat(payload)[0..0] + NoBits(32);
    for n := 0 to 4
      invariant bitsMerged < 10 && 8 * readByteIndex == 10 * n + bitsMerged <= 40
      invariant readValue == Flat(payload)[10 * n..10 * n + bitsMerged] + NoBits(32 - bitsMerged)
      invariant forall k :: 0 <= k < n ==> dest[from + k] == Expand(Field(Flat(payload), k))
      invariant forall i :: 0 <= i < dest.Length && !(from <= i < from + n) ==> dest[i] == old(dest[i])
    {
      var v: uint32;
      v, readValue, bitsMerged, readByteIndex := UnpackOne(payload, readValue, bitsMerged, readByteIndex, n);
      dest[from + n] := v;
    }
  }

  lemma NextField(read: Word, stream: Word, n: nat, merged: nat)
    requires 10 <= merged < 18 && 10 * n + merged <= |stream|
    requires read == stream[10 * n..10 * n + merged] + NoBits(32 - merged)
    ensures read[..10] == Field(stream, n)
    ensures ShiftR(read, 10) == stream[10 * (n + 1)..10 * n + merged] + NoBits(32 - (merged - 10))
  {
  }

  // ----- Round trip ---------------------------------------------------------------

  lemma {:induction false} StreamField(vs: seq<uint32>, n: nat)
    requires n < |vs|
    ensures Field(Stream(vs), n) == Ten(vs[n])
    decreases |vs|
  {
    var last := |vs| - 1;
    if n < last {
      StreamField(vs[..last], n);
      assert Field(Stream(vs), n) == Field(Stream(vs[..last]), n);
    }
  }

  lemma {:induction false} ToFromInt(n: nat, v: nat)
    requires v < Power(n)
    ensures ToInt(FromInt(n, v)) == v
  {
    BitsValue(n, v);
    ReverseTwice(Bits(n, v));
  }

  lemma ReverseTwice(a: Word)
    ensures Reverse(Reverse(a)) == a
  {
    forall i | 0 <= i < |a| ensures Reverse(Reverse(a))[i] == a[i] {
    }
  }

  lemma ShiftedBack(bits: Word)
    ensures ShiftR([false] + bits, 1) == ShiftR([true] + bits, 1) == bits + [false]
    ensures ShiftL(bits + [false], 1) == [false] + bits
  {
  }

  lemma LowBitCleared(v: uint32)
    requires IsChannel(v)
    ensures ShiftL(Decimate(v), 1) == FromInt(32, 2 * (v / 2))
  {
    HalfAndBack(32, v);
  }

  lemma HalfAndBack(n: nat, v: nat)
    requires n > 0
    ensures ShiftL(ShiftR(FromInt(n, v), 1), 1) == FromInt(n, 2 * (v / 2))
  {
    FromIntSplits(n, v);
    FromIntSplits(n, 2 * (v / 2));
    ShiftedBack(FromInt(n - 1, v / 2));
  }

  /** A channel comes back with its lowest bit cleared, and nothing else changed. */
  lemma RoundTrip(v: uint32)
    requires IsChannel(v)
    ensures Expand(Ten(v)) as int == v - v % 2
  {
    DecimatedIsTenBits(v);
    LowBitCleared(v);
    Powers();
    ToFromInt(32, 2 * (v / 2));
  }
}
