/** The CRC of over-the-air packets (OTA.c): what a receiver accepts. Full packets carry a
    CRC of 16 bits over 11 bytes; short packets a CRC of 14 bits over 7 bytes, six of whose
    bits share the first byte with the packet type. The register starts from a word made
    of the binding UID, the protocol version and, in AirPort mode, a domain constant. */
module PacketCrc {
  import opened BitWord
  import opened Crc
  import opened Widths

  const FULL_PACKET_SIZE := 13
  const FULL_COVERED := 11
  const STD_PACKET_SIZE := 8
  const STD_COVERED := 7
  const CRC16_POLY := 0x3D65
  const CRC14_POLY := 0x2E57
  const OTA_VERSION_ID := 3
  const AIRPORT_CRC_DOMAIN := 0x4150

  /** `OtaUpdateCrcInitFromUid` */
  function CrcInitializer(uid4: uint8, uid5: uint8, airport: bool): (r: Word)
    ensures |r| == 16
  {
    var link := Xor(Bits(8, uid4) + Bits(8, uid5), Bits(16, OTA_VERSION_ID));
    if airport then Xor(link, Bits(16, AIRPORT_CRC_DOMAIN)) else link
  }

  lemma OddPolynomials()
    ensures Odd(Bits(16, CRC16_POLY)) && Odd(Low(14, Bits(16, CRC14_POLY)))
  {
    var p := Bits(16, CRC14_POLY);
    assert p[15];
    assert Low(14, p)[13] == p[15];
  }

  lemma DomainIsNotZero()
    ensures Bits(16, AIRPORT_CRC_DOMAIN)[11]
  {
    assert Bits(12, 0x415)[11];
    assert Bits(13, 0x82A)[11];
    assert Bits(14, 0x1054)[11];
    assert Bits(15, 0x20A8)[11];
  }

  // ----- Full packets -------------------------------------------------------------

  function FullCrc(initializer: Word, covered: seq<uint8>): (r: Word)
    requires |initializer| == 16
    ensures |r| == 16
  {
    SerialCrc(16, Bits(16, CRC16_POLY), covered, initializer)
  }

  function ByteOf(w: Word): (b: uint8)
    requires |w| == 8
    ensures Bits(8, b) == w
  {
    Power8();
    ValueBits(w);
    Value(w)
  }

  /** The CRC field is little-endian. */
  function StoredFullCrc(p: seq<uint8>): (r: Word)
    requires |p| == FULL_PACKET_SIZE
    ensures |r| == 16
  {
    Bits(8, p[12]) + Bits(8, p[11])
  }

  function SealFull(initializer: Word, covered: seq<uint8>): (p: seq<uint8>)
    requires |initializer| == 16 && |covered| == FULL_COVERED
    ensures |p| == FULL_PACKET_SIZE
  {
    var crc := FullCrc(initializer, covered);
    covered + [ByteOf(crc[8..]), ByteOf(crc[..8])]
  }

  predicate AcceptsFull(initializer: Word, p: seq<uint8>)
    requires |initializer| == 16 && |p| == FULL_PACKET_SIZE
  {
    StoredFullCrc(p) == FullCrc(initializer, p[..FULL_COVERED])
  }

  lemma SealedField(initializer: Word, covered: seq<uint8>)
    requires |initializer| == 16 && |covered| == FULL_COVERED
    ensures StoredFullCrc(SealFull(initializer, covered)) == FullCrc(initializer, covered)
    ensures SealFull(initializer, covered)[..FULL_COVERED] == covered
  {
    var crc := FullCrc(initializer, covered);
    assert crc == crc[..8] + crc[8..];
  }

  lemma FullCrcSeparates(i1: Word, i2: Word, covered: seq<uint8>)
    requires |i1| == |i2| == 16
    ensures FullCrc(i1, covered) == FullCrc(i2, covered) <==> i1 == i2
  {
    OddPolynomials();
    var p := Bits(16, CRC16_POLY);
    assert Low(16, p) == p && Low(16, i1) == i1 && Low(16, i2) == i2;
    FeedInjective(p, i1, i2, Message(covered));
  }

  /** A packet sealed under one initializer is accepted under that initializer only. */
  lemma AcceptedUnderItsInitializerOnly(i1: Word, i2: Word, covered: seq<uint8>)
    requires |i1| == |i2| == 16 && |covered| == FULL_COVERED
    ensures AcceptsFull(i2, SealFull(i1, covered)) <==> i1 == i2
  {
    SealedField(i1, covered);
    FullCrcSeparates(i1, i2, covered);
  }

  lemma InitializersDiffer(a4: uint8, a5: uint8, b4: uint8, b5: uint8, airport: bool)
    ensures CrcInitializer(a4, a5, airport) == CrcInitializer(b4, b5, airport) <==> a4 == b4 && a5 == b5
    ensures CrcInitializer(a4, a5, true) != CrcInitializer(a4, a5, false)
  {
    var version, domain := Bits(16, OTA_VERSION_ID), Bits(16, AIRPORT_CRC_DOMAIN);
    var a, b := Bits(8, a4) + Bits(8, a5), Bits(8, b4) + Bits(8, b5);
    XorCancels(a, b, version);
    XorCancels(Xor(a, version), Xor(b, version), domain);
    SameTwoBytes(a4, a5, b4, b5);
    DomainIsNotZero();
    assert Xor(Xor(a, version), domain)[11] != Xor(a, version)[11];
  }

  /** Two bindings hear each other, in one mode, only when the two low UID bytes agree; and
      an AirPort end never hears an RC end of the same binding, nor the other way round. */
  lemma DomainsNeverMix(a4: uint8, a5: uint8, b4: uint8, b5: uint8, airport: bool, covered: seq<uint8>)
    requires |covered| == FULL_COVERED
    ensures AcceptsFull(CrcInitializer(b4, b5, airport), SealFull(CrcInitializer(a4, a5, airport), covered))
       <==> a4 == b4 && a5 == b5
    ensures !AcceptsFull(CrcInitializer(a4, a5, !airport), SealFull(CrcInitializer(a4, a5, airport), covered))
  {
    InitializersDiffer(a4, a5, b4, b5, airport);
    AcceptedUnderItsInitializerOnly(CrcInitializer(a4, a5, airport), CrcInitializer(b4, b5, airport), covered);
    AcceptedUnderItsInitializerOnly(CrcInitializer(a4, a5, airport), CrcInitializer(a4, a5, !airport), covered);
  }

  // ----- Corruption ---------------------------------------------------------------

  /** Once accepted, a packet whose covered bits change only inside a window of at most 16
      consecutive bits is accepted again only if nothing changed at all. */
  lemma BurstIsRejected(initializer: Word, p: seq<uint8>, q: seq<uint8>,
                        before: seq<bool>, a: seq<bool>, b: seq<bool>, after: seq<bool>)
    requires |initializer| == 16 && |p| == |q| == FULL_PACKET_SIZE && AcceptsFull(initializer, p)
    requires q[FULL_COVERED..] == p[FULL_COVERED..] && |a| == |b| <= 16
    requires Message(p[..FULL_COVERED]) == before + a + after
    requires Message(q[..FULL_COVERED]) == before + b + after
    ensures AcceptsFull(initializer, q) <==> a == b
  {
    OddPolynomials();
    var poly := Bits(16, CRC16_POLY);
    assert Low(16, poly) == poly && Low(16, initializer) == initializer;
    assert q[11] == q[FULL_COVERED..][0] == p[11] && q[12] == q[FULL_COVERED..][1] == p[12];
    BurstsAreDetected(poly, initializer, before, a, b, after);
  }

  lemma {:induction false} MessageConcat(a: seq<uint8>, b: seq<uint8>)
    ensures Message(a + b) == Message(a) + Message(b)
    decreases |b|
  {
    if b == [] {
      assert a + b == a;
    } else {
      var n := |b| - 1;
      assert (a + b)[..|a| + n] == a + b[..n];
      MessageConcat(a, b[..n]);
    }
  }

  lemma MessageOne(d: uint8)
    ensures Message([d]) == Bits(8, d)
  {
    assert [d][..0] == [];
  }

  lemma MessageWindow(before: seq<uint8>, x: uint8, y: uint8, after: seq<uint8>)
    ensures Message(before + [x, y] + after) == Message(before) + (Bits(8, x) + Bits(8, y)) + Message(after)
  {
    MessageConcat(before + [x, y], after);
    MessageConcat(before, [x, y]);
    assert [x, y] == [x] + [y];
    MessageConcat([x], [y]);
    MessageOne(x);
    MessageOne(y);
  }

  lemma WindowMessage(p: seq<uint8>, k: nat, x: uint8, y: uint8, q: seq<uint8>)
    requires |p| == FULL_PACKET_SIZE && k + 1 < FULL_COVERED && q == p[k := x][k + 1 := y]
    ensures |q| == FULL_PACKET_SIZE && q[FULL_COVERED..] == p[FULL_COVERED..]
    ensures Message(q[..FULL_COVERED])
         == Message(p[..k]) + (Bits(8, x) + Bits(8, y)) + Message(p[k + 2..FULL_COVERED])
  {
    Around(p, k, x, y, FULL_COVERED);
    MessageWindow(p[..k], x, y, p[k + 2..FULL_COVERED]);
  }

  /** In bytes: any change confined to two neighbouring covered bytes is rejected. */
  lemma TwoByteCorruptionIsRejected(initializer: Word, p: seq<uint8>, k: nat, x: uint8, y: uint8)
    requires |initializer| == 16 && |p| == FULL_PACKET_SIZE && AcceptsFull(initializer, p)
    requires k + 1 < FULL_COVERED
    ensures AcceptsFull(initializer, p[k := x][k + 1 := y]) <==> p[k] == x && p[k + 1] == y
  {
    var q := p[k := x][k + 1 := y];
    WindowMessage(p, k, x, y, q);
    WindowMessage(p, k, p[k], p[k + 1], p);
    BurstIsRejected(initializer, p, q, Message(p[..k]), Bits(8, p[k]) + Bits(8, p[k + 1]),
                    Bits(8, x) + Bits(8, y), Message(p[k + 2..FULL_COVERED]));
    SameTwoBytes(p[k], p[k + 1], x, y);
  }

  lemma Around<T>(p: seq<T>, k: nat, x: T, y: T, end: nat)
    requires k + 2 <= end <= |p|
    ensures p[k := x][k + 1 := y][..end] == p[..k] + [x, y] + p[k + 2..end]
    ensures p[k := x][k + 1 := y][end..] == p[end..]
  {
  }

  lemma SameTwoBytes(a: uint8, b: uint8, x: uint8, y: uint8)
    ensures Bits(8, a) + Bits(8, b) == Bits(8, x) + Bits(8, y) <==> a == x && b == y
  {
    Power8();
    BitsInjective(8, a, x);
    BitsInjective(8, b, y);
    if Bits(8, a) + Bits(8, b) == Bits(8, x) + Bits(8, y) {
      assert Bits(8, a) == (Bits(8, a) + Bits(8, b))[..8] == Bits(8, x);
      assert Bits(8, b) == (Bits(8, a) + Bits(8, b))[8..] == Bits(8, y);
    }
  }

  // ----- Short packets ------------------------------------------------------------

  function StdCrc(initializer: Word, covered: seq<uint8>): (r: Word)
    requires |initializer| == 16
    ensures |r| == 14
  {
    SerialCrc(14, Bits(16, CRC14_POLY), covered, initializer)
  }

  /** `type` in the two low bits of a byte, `crcHigh` in the six high ones */
  function FirstByte(crcHigh: Word, old0: uint8): (b: uint8)
    requires |crcHigh| == 6
    ensures Bits(8, b) == crcHigh + Bits(8, old0)[6..]
  {
    ByteOf(crcHigh + Bits(8, old0)[6..])
  }

  function SealStd(initializer: Word, p: seq<uint8>): (q: seq<uint8>)
    requires |initializer| == 16 && |p| == STD_PACKET_SIZE
    ensures |q| == STD_PACKET_SIZE
  {
    var crc := StdCrc(initializer, p[..STD_COVERED]);
    p[0 := FirstByte(crc[..6], p[0])][STD_COVERED := ByteOf(crc[6..])]
  }

  function ClearHigh(p: seq<uint8>): (q: seq<uint8>)
    requires |p| == STD_PACKET_SIZE
    ensures |q| == STD_PACKET_SIZE
  {
    p[0 := FirstByte(NoBits(6), p[0])]
  }

  predicate AcceptsStd(initializer: Word, p: seq<uint8>)
    requires |initializer| == 16 && |p| == STD_PACKET_SIZE
  {
    Bits(8, p[0])[..6] + Bits(8, p[7]) == StdCrc(initializer, ClearHigh(p)[..STD_COVERED])
  }

  lemma StdField(initializer: Word, p: seq<uint8>)
    requires |initializer| == 16 && |p| == STD_PACKET_SIZE
    ensures var q := SealStd(initializer, p);
            && Bits(8, q[0])[..6] + Bits(8, q[7]) == StdCrc(initializer, p[..STD_COVERED])
            && ClearHigh(q)[..STD_COVERED] == ClearHigh(p)[..STD_COVERED]
  {
    var q := SealStd(initializer, p);
    var crc := StdCrc(initializer, p[..STD_COVERED]);
    assert crc == crc[..6] + crc[6..];
    assert Bits(8, q[0])[..6] == crc[..6] && Bits(8, q[0])[6..] == Bits(8, p[0])[6..];
  }

  /** The sender computes the CRC over whatever its `crcHigh` field holds; the receiver
      clears the field first. So the ends agree exactly when the field was clear before
      the packet was sealed. */
  lemma StdNeedsClearField(initializer: Word, p: seq<uint8>)
    requires |initializer| == 16 && |p| == STD_PACKET_SIZE
    ensures AcceptsStd(initializer, SealStd(initializer, p)) <==> Bits(8, p[0])[..6] == NoBits(6)
  {
    StdField(initializer, p);
    CoveredBytes(p);
    ClearFirstByte(p[0]);
    FirstByteMatters(initializer, p[0], FirstByte(NoBits(6), p[0]), p[1..STD_COVERED]);
  }

  lemma CoveredBytes(p: seq<uint8>)
    requires |p| == STD_PACKET_SIZE
    ensures p[..STD_COVERED] == [p[0]] + p[1..STD_COVERED]
    ensures ClearHigh(p)[..STD_COVERED] == [FirstByte(NoBits(6), p[0])] + p[1..STD_COVERED]
  {
  }

  lemma ClearFirstByte(a: uint8)
    ensures Bits(8, a) == Bits(8, FirstByte(NoBits(6), a)) <==> Bits(8, a)[..6] == NoBits(6)
  {
    assert Bits(8, a) == Bits(8, a)[..6] + Bits(8, a)[6..];
    assert Bits(8, FirstByte(NoBits(6), a))[..6] == NoBits(6);
  }

  lemma FirstByteMatters(initializer: Word, a: uint8, b: uint8, after: seq<uint8>)
    requires |initializer| == 16
    ensures StdCrc(initializer, [a] + after) == StdCrc(initializer, [b] + after) <==> Bits(8, a) == Bits(8, b)
  {
    OddPolynomials();
    MessageAround(a, after);
    MessageAround(b, after);
    BurstsAreDetected(Low(14, Bits(16, CRC14_POLY)), Low(14, initializer), [], Bits(8, a), Bits(8, b), Message(after));
  }

  lemma MessageAround(a: uint8, after: seq<uint8>)
    ensures Message([a] + after) == [] + Bits(8, a) + Message(after)
  {
    MessageConcat([a], after);
    MessageOne(a);
    assert [] + Bits(8, a) == Bits(8, a);
  }

  /** With the field clear, short packets are separated by 14 bits of the initializer. */
  lemma StdAcceptedUnderItsInitializerOnly(i1: Word, i2: Word, p: seq<uint8>)
    requires |i1| == |i2| == 16 && |p| == STD_PACKET_SIZE && Bits(8, p[0])[..6] == NoBits(6)
    ensures AcceptsStd(i2, SealStd(i1, p)) <==> Low(14, i1) == Low(14, i2)
  {
    OddPolynomials();
    StdField(i1, p);
    ClearIsClear(p);
    FeedInjective(Low(14, Bits(16, CRC14_POLY)), Low(14, i1), Low(14, i2), Message(p[..STD_COVERED]));
  }

  lemma ClearIsClear(p: seq<uint8>)
    requires |p| == STD_PACKET_SIZE && Bits(8, p[0])[..6] == NoBits(6)
    ensures ClearHigh(p) == p
  {
    var b := FirstByte(NoBits(6), p[0]);
    assert Bits(8, p[0]) == Bits(8, p[0])[..6] + Bits(8, p[0])[6..];
    Power8();
    BitsInjective(8, b, p[0]);
  }

  // ----- The functions as the firmware runs them ----------------------------------

  class OtaCrc {
    const engine: Crc2Byte
    var initializer: Word

    ghost predicate Valid()
      reads this, engine, engine.table
    {
      engine.Valid() && |initializer| == 16
    }

    ghost predicate ReadyFor(bits: nat, poly: nat)
      reads this, engine, engine.table
    {
      Valid() && engine.bits == bits && engine.poly == Bits(16, poly)
    }

    constructor ()
      ensures Valid() && fresh(engine) && fresh(engine.table)
    {
      engine := new Crc2Byte();
      initializer := NoBits(16);
    }

    method UpdateInitializer(uid4: uint8, uid5: uint8, airport: bool)
      requires Valid()
      modifies this`initializer
      ensures Valid() && initializer == CrcInitializer(uid4, uid5, airport)
    {
      initializer := Bits(8, uid4) + Bits(8, uid5);
      initializer := Xor(initializer, Bits(16, OTA_VERSION_ID));
      if airport {
        initializer := Xor(initializer, Bits(16, AIRPORT_CRC_DOMAIN));
      }
    }

    /** The part of `OtaUpdateSerializers` that selects the engine. */
    method UpdateSerializers(packetSize: uint8)
      requires Valid()
      modifies engine, engine.table
      ensures Valid()
      ensures packetSize == FULL_PACKET_SIZE ==> ReadyFor(16, CRC16_POLY)
      ensures packetSize != FULL_PACKET_SIZE ==> ReadyFor(14, CRC14_POLY)
    {
      if packetSize == FULL_PACKET_SIZE {
        engine.Init(16, Bits(16, CRC16_POLY));
      } else {
        engine.Init(14, Bits(16, CRC14_POLY));
      }
    }

    method GenerateFull(p: array<uint8>)
      requires ReadyFor(16, CRC16_POLY) && p.Length == FULL_PACKET_SIZE
      modifies p
      ensures p[..] == SealFull(initializer, old(p[..FULL_COVERED]))
    {
      var crc := engine.Calc(p[..FULL_COVERED], initializer);
      assert crc == FullCrc(initializer, p[..FULL_COVERED]);
      p[11] := ByteOf(crc[8..]);
      p[12] := ByteOf(crc[..8]);
    }

    method ValidateFull(p: array<uint8>) returns (ok: bool)
      requires ReadyFor(16, CRC16_POLY) && p.Length == FULL_PACKET_SIZE
      ensures ok == AcceptsFull(initializer, p[..])
    {
      var crc := engine.Calc(p[..FULL_COVERED], initializer);
      assert crc == FullCrc(initializer, p[..FULL_COVERED]) && p[..][..FULL_COVERED] == p[..FULL_COVERED];
      ok := Bits(8, p[12]) + Bits(8, p[11]) == crc;
    }

    method GenerateStd(p: array<uint8>)
      requires ReadyFor(14, CRC14_POLY) && p.Length == STD_PACKET_SIZE
      modifies p
      ensures p[..] == SealStd(initializer, old(p[..]))
    {
      var crc := engine.Calc(p[..STD_COVERED], initializer);
      assert p[..][..STD_COVERED] == p[..STD_COVERED];
      PaddedParts(crc, StdCrc(initializer, p[..STD_COVERED]));
      p[0] := FirstByte(crc[2..8], p[0]);
      p[7] := ByteOf(crc[8..]);
    }

    /** The field is cleared in the packet itself and put back. */
    method ValidateStd(p: array<uint8>) returns (ok: bool)
      requires ReadyFor(14, CRC14_POLY) && p.Length == STD_PACKET_SIZE
      modifies p
      ensures ok == AcceptsStd(initializer, old(p[..])) && p[..] == old(p[..])
    {
      ghost var p0 := p[..];
      var backup := p[0];
      var inCrc := NoBits(2) + Bits(8, p[0])[..6] + Bits(8, p[7]);
      p[0] := FirstByte(NoBits(6), p[0]);
      assert p[..] == ClearHigh(p0) && p[..STD_COVERED] == p[..][..STD_COVERED];
      var crc := engine.Calc(p[..STD_COVERED], initializer);
      p[0] := FirstByte(Bits(8, backup)[..6], p[0]);
      RestoredByte(backup);
      assert p[..] == p0;
      ok := inCrc == crc;
      SamePadded(Bits(8, p0[0])[..6], Bits(8, p0[7]), StdCrc(initializer, ClearHigh(p0)[..STD_COVERED]));
    }
  }

  lemma PaddedParts(padded: Word, crc: Word)
    requires |crc| == 14 && padded == NoBits(2) + crc
    ensures padded[2..8] == crc[..6] && padded[8..] == crc[6..]
  {
  }

  lemma SamePadded(high: Word, low: Word, crc: Word)
    requires |high| == 6 && |low| == 8 && |crc| == 14
    ensures NoBits(2) + high + low == NoBits(16 - 14) + crc <==> high + low == crc
  {
    assert (NoBits(2) + high + low)[2..] == high + low;
    assert (NoBits(2) + crc)[2..] == crc;
    assert NoBits(2) + high + low == NoBits(2) + (high + low);
  }

  lemma RestoredByte(b: uint8)
    ensures FirstByte(Bits(8, b)[..6], FirstByte(NoBits(6), b)) == b
  {
    var cleared := FirstByte(NoBits(6), b);
    assert Bits(8, cleared)[6..] == Bits(8, b)[6..];
    assert Bits(8, b) == Bits(8, b)[..6] + Bits(8, b)[6..];
    Power8();
    BitsInjective(8, b, FirstByte(Bits(8, b)[..6], cleared));
  }
}
