/** The AirPort byte ring: 128 cells under free-running 16-bit counters. */
module AirportRing {
  import opened Widths

  const CAPACITY := 128
  const MAX_PAYLOAD := 10

  /** A counter selects its cell by its low seven bits. */
  function Cell(counter: nat): nat { counter % CAPACITY }

  function Occupancy(head: uint16, tail: uint16): uint16 { Wrap16(head - tail) }

  lemma SubtractMod(h: nat, t: nat)
    requires t <= h
    ensures Wrap16(Wrap16(h) - Wrap16(t)) == Wrap16(h - t)
  {
    var m := 0x1_0000;
    assert h == (h / m) * m + Wrap16(h) && t == (t / m) * m + Wrap16(t);
    var k, d := h / m - t / m, Wrap16(h) - Wrap16(t);
    assert h - t == k * m + d;
    assert (k * m + d) % m == d % m;
  }

  /** 128 divides 2^16, so the wrap does not move the cells. */
  lemma CellOfCounter(h: nat)
    ensures Cell(Wrap16(h)) == Cell(h)
  {
    var q := h / 0x1_0000;
    assert h == Wrap16(h) + (512 * q) * CAPACITY;
    CellShift(Wrap16(h), 512 * q);
  }

  lemma CellShift(x: nat, k: nat)
    ensures (x + k * CAPACITY) % CAPACITY == x % CAPACITY
  {
  }

  /** Counters that stand for totals `t <= h` no more than the capacity apart give the
      number of queued bytes, and select the cells the totals would. */
  lemma CountersAgree(h: nat, t: nat)
    requires t <= h <= t + CAPACITY
    ensures Occupancy(Wrap16(h), Wrap16(t)) == h - t
    ensures Cell(Wrap16(h)) == Cell(h) && Cell(Wrap16(t)) == Cell(t)
    ensures Wrap16(h) == Wrap16(t) <==> h == t
  {
    SubtractMod(h, t);
    CellOfCounter(h);
    CellOfCounter(t);
  }

  lemma NextCounter(h: nat)
    ensures Wrap16(Wrap16(h) + 1) == Wrap16(h + 1)
  {
  }

  lemma OtherCells(h: nat, k: nat)
    requires k < h < k + CAPACITY
    ensures Cell(k) != Cell(h)
  {
  }

  class AirportFifo {
    var head: uint16
    var tail: uint16
    var overflowCount: uint32
    const data: array<uint8>
    /** Totals of accepted and popped bytes since the last reset. */
    ghost var pushedTotal: nat
    ghost var poppedTotal: nat

    ghost predicate Valid()
      reads this
    {
      && data.Length == CAPACITY
      && poppedTotal <= pushedTotal <= poppedTotal + CAPACITY
      && head == Wrap16(pushedTotal) && tail == Wrap16(poppedTotal)
    }

    ghost function Contents(): (s: seq<uint8>)
      requires Valid()
      reads this, data
      ensures |s| == pushedTotal - poppedTotal
    {
      seq(pushedTotal - poppedTotal, i requires 0 <= i reads this, data requires Valid() => data[Cell(poppedTotal + i)])
    }

    constructor ()
      ensures Valid() && Contents() == [] && overflowCount == 0 && fresh(data)
    {
      data := new uint8[CAPACITY];
      head, tail, overflowCount, pushedTotal, poppedTotal := 0, 0, 0, 0, 0;
    }

    method Reset()
      requires Valid()
      modifies this
      ensures Valid() && Contents() == [] && overflowCount == 0
    {
      head, tail, overflowCount, pushedTotal, poppedTotal := 0, 0, 0, 0, 0;
    }

    method Size() returns (n: uint16)
      requires Valid()
      ensures n == |Contents()|
    {
      CountersAgree(pushedTotal, poppedTotal);
      n := Wrap16(head - tail);
    }

    /** Write the byte, then publish it by advancing the head. */
    method Publish(byte: uint8)
      requires Valid() && |Contents()| < CAPACITY
      modifies this, data
      ensures Valid() && Contents() == old(Contents()) + [byte]
      ensures overflowCount == old(overflowCount) && poppedTotal == old(poppedTotal)
    {
      ghost var before := Contents();
      forall k | poppedTotal <= k < pushedTotal
        ensures Cell(k) != Cell(pushedTotal)
      {
        OtherCells(pushedTotal, k);
      }
      CellOfCounter(pushedTotal);
      NextCounter(pushedTotal);
      data[Cell(head)] := byte;
      head := Wrap16(head + 1);
      pushedTotal := pushedTotal + 1;
      assert forall i :: 0 <= i < |before| ==> Contents()[i] == before[i];
      assert Contents()[|before|] == byte;
    }

    /** Read the oldest byte, then release its cell by advancing the tail. */
    method Release() returns (byte: uint8)
      requires Valid() && Contents() != []
      modifies this
      ensures Valid() && [byte] + Contents() == old(Contents())
      ensures overflowCount == old(overflowCount) && pushedTotal == old(pushedTotal)
    {
      CellOfCounter(poppedTotal);
      NextCounter(poppedTotal);
      byte := data[Cell(tail)];
      tail := Wrap16(tail + 1);
      poppedTotal := poppedTotal + 1;
    }

    lemma Occupied()
      requires Valid()
      ensures Wrap16(head - tail) == |Contents()| && (tail == head <==> Contents() == [])
    {
      CountersAgree(pushedTotal, poppedTotal);
    }

    /** As many bytes as fit are taken; the rest is counted as overflow. */
    method PushBytes(bytes: seq<uint8>) returns (pushed: nat)
      requires Valid()
      modifies this, data
      ensures Valid() && pushed == Min(|bytes|, CAPACITY - |old(Contents())|)
      ensures Contents() == old(Contents()) + bytes[..pushed]
      ensures overflowCount == Wrap32(old(overflowCount) + |bytes| - pushed)
      ensures poppedTotal == old(poppedTotal)
    {
      pushed := 0;
      ghost var before := Contents();
      while pushed < |bytes|
        invariant Valid() && pushed <= |bytes| && poppedTotal == old(poppedTotal)
        invariant Contents() == before + bytes[..pushed]
        invariant overflowCount == old(overflowCount)
      {
        Occupied();
        if Wrap16(head - tail) >= CAPACITY {
          overflowCount := Wrap32(overflowCount + (|bytes| - pushed));
          break;
        }
        assert bytes[..pushed + 1] == bytes[..pushed] + [bytes[pushed]];
        Publish(bytes[pushed]);
        pushed := pushed + 1;
      }
    }

    method PopBytes(length: nat) returns (bytes: seq<uint8>)
      requires Valid()
      modifies this
      ensures Valid() && |bytes| == Min(length, |old(Contents())|)
      ensures bytes + Contents() == old(Contents())
      ensures overflowCount == old(overflowCount) && pushedTotal == old(pushedTotal)
    {
      bytes := [];
      while |bytes| < length
        invariant Valid() && |bytes| <= length && pushedTotal == old(pushedTotal)
        invariant bytes + Contents() == old(Contents())
        invariant overflowCount == old(overflowCount)
      {
        Occupied();
        if tail == head {
          break;
        }
        var byte := Release();
        bytes := bytes + [byte];
      }
    }
  }

  // ----- packets -----

  function PayloadLengthClamp(length: uint16): uint8 {
    if length > MAX_PAYLOAD then MAX_PAYLOAD else length
  }

  predicate PayloadLengthIsValid(length: uint8) { length <= MAX_PAYLOAD }

  datatype AirportPacket = AirportPacket(count: uint8, payload: seq<uint8>)

  /** Move up to ten queued bytes into a packet, in order. */
  method PackAirportData(input: AirportFifo) returns (p: AirportPacket)
    requires input.Valid()
    modifies input
    ensures input.Valid() && input.overflowCount == old(input.overflowCount)
    ensures p.count == Min(MAX_PAYLOAD, |old(input.Contents())|) && |p.payload| == MAX_PAYLOAD
    ensures p.payload[..p.count] + input.Contents() == old(input.Contents())
    ensures p.payload[p.count..] == Zeros(MAX_PAYLOAD - p.count)
  {
    var available := input.Size();
    var count := PayloadLengthClamp(available);
    var bytes := input.PopBytes(count);
    p := AirportPacket(count, bytes + Zeros(MAX_PAYLOAD - |bytes|));
    assert p.payload[..count] == bytes;
  }

  /** A packet whose count is impossible is rejected untouched; otherwise its bytes are
      queued, and success means that all of them were. */
  method UnpackAirportData(p: AirportPacket, output: AirportFifo) returns (ok: bool)
    requires output.Valid() && |p.payload| == MAX_PAYLOAD
    modifies output, output.data
    ensures output.Valid()
    ensures p.count > MAX_PAYLOAD ==> !ok && output.Contents() == old(output.Contents())
    ensures p.count <= MAX_PAYLOAD ==>
              && (ok <==> |old(output.Contents())| + p.count <= CAPACITY)
              && (ok ==> output.Contents() == old(output.Contents()) + p.payload[..p.count])
  {
    if !PayloadLengthIsValid(p.count) {
      return false;
    }
    var pushed := output.PushBytes(p.payload[..p.count]);
    ok := pushed == p.count;
  }
}
