/** The AirPort ring shared by an interrupt (producer) and the main loop (consumer),
    step by step: every read or write of a shared field is a step of its own, and the two
    sides interleave freely. On top of it, the byte stream through the packet link. */
module AirportConcurrency {
  import opened Widths
  import opened AirportRing

  /** Where the producer stands in `PushBytes`: it has looked at its head, has seen room,
      or has written the byte it is about to publish. */
  datatype Producer =
    | PIdle
    | PLoop(bytes: seq<uint8>, pushed: nat)
    | PLoaded(bytes: seq<uint8>, pushed: nat, head: uint16)
    | PRoom(bytes: seq<uint8>, pushed: nat, head: uint16)
    | PWritten(bytes: seq<uint8>, pushed: nat, head: uint16)

  /** Where the consumer stands in packing a packet: size, then `PopBytes`. */
  datatype Consumer =
    | CIdle
    | CSized(head: uint16)
    | CLoop(count: uint8, out: seq<uint8>)
    | CLoaded(count: uint8, out: seq<uint8>, tail: uint16)
    | CNonEmpty(count: uint8, out: seq<uint8>, tail: uint16)
    | CTaken(count: uint8, out: seq<uint8>, tail: uint16)

  /** The shared fields, both sides, and the history: published and popped bytes, bytes
      offered to finished and current calls, bytes refused. */
  datatype Ring = Ring(
    head: uint16,
    tail: uint16,
    overflowCount: uint32,
    cells: seq<uint8>,
    producer: Producer,
    consumer: Consumer,
    accepted: seq<uint8>,
    popped: seq<uint8>,
    offered: nat,
    refused: nat,
    packets: seq<AirportPacket>)

  predicate Start(r: Ring) {
    && r.head == 0 && r.tail == 0 && r.overflowCount == 0 && |r.cells| == CAPACITY
    && r.producer == PIdle && r.consumer == CIdle && r.accepted == [] && r.popped == []
    && r.offered == 0 && r.refused == 0 && r.packets == []
  }

  /** The interrupt starts a call when idle, otherwise takes one more step. */
  function ProducerStep(r: Ring, bytes: seq<uint8>): Ring
    requires |r.cells| == CAPACITY
  {
    match r.producer
    case PIdle => r.(producer := PLoop(bytes, 0), offered := r.offered + |bytes|)
    case PLoop(b, n) => r.(producer := if n < |b| then PLoaded(b, n, r.head) else PIdle)
    case PLoaded(b, n, h) =>
      if Occupancy(h, r.tail) >= CAPACITY && n <= |b| then
        r.(producer := PIdle, refused := r.refused + |b| - n, overflowCount := Wrap32(r.overflowCount + (|b| - n)))
      else r.(producer := PRoom(b, n, h))
    case PRoom(b, n, h) =>
      if n < |b| then r.(producer := PWritten(b, n, h), cells := r.cells[Cell(h) := b[n]]) else r
    case PWritten(b, n, h) =>
      if n < |b| then r.(producer := PLoop(b, n + 1), head := Wrap16(h + 1), accepted := r.accepted + [b[n]]) else r
  }

  /** The main loop starts packing when idle, otherwise takes one more step; after the last
      one the packet is complete. */
  function ConsumerStep(r: Ring): Ring
    requires |r.cells| == CAPACITY
  {
    match r.consumer
    case CIdle => r.(consumer := CSized(r.head))
    case CSized(h) => r.(consumer := CLoop(PayloadLengthClamp(Occupancy(h, r.tail)), []))
    case CLoop(c, out) =>
      if |out| < c then r.(consumer := CLoaded(c, out, r.tail))
      else Finish(r, c, out)
    case CLoaded(c, out, t) => if t == r.head then Finish(r, c, out) else r.(consumer := CNonEmpty(c, out, t))
    case CNonEmpty(c, out, t) => r.(consumer := CTaken(c, out + [r.cells[Cell(t)]], t))
    case CTaken(c, out, t) =>
      if out != [] then
        r.(consumer := CLoop(c, out), tail := Wrap16(t + 1), popped := r.popped + [out[|out| - 1]])
      else r
  }

  function Finish(r: Ring, count: uint8, out: seq<uint8>): Ring {
    r.(consumer := CIdle,
       packets := r.packets + [AirportPacket(count,
           if |out| <= MAX_PAYLOAD then out + Zeros(MAX_PAYLOAD - |out|) else out)])
  }

  // ----- the invariant -----

  /** Bytes of the current call not yet published or refused. */
  function InCall(p: Producer): int {
    match p
    case PIdle => 0
    case PLoop(b, n) => |b| - n
    case PLoaded(b, n, _) => |b| - n
    case PRoom(b, n, _) => |b| - n
    case PWritten(b, n, _) => |b| - n
  }

  /** Bytes the consumer has popped for the packet it is filling. */
  function Filling(c: Consumer): seq<uint8> {
    match c
    case CIdle => []
    case CSized(_) => []
    case CLoop(_, out) => out
    case CLoaded(_, out, _) => out
    case CNonEmpty(_, out, _) => out
    case CTaken(_, out, _) => if out == [] then [] else out[..|out| - 1]
  }

  function Payloads(ps: seq<AirportPacket>): seq<uint8> {
    if ps == [] then []
    else
      Payloads(ps[..|ps| - 1])
      + ps[|ps| - 1].payload[..Min(ps[|ps| - 1].count, |ps[|ps| - 1].payload|)]
  }

  predicate RingInv(r: Ring) {
    var h, t := |r.accepted|, |r.popped|;
    && |r.cells| == CAPACITY && t <= h <= t + CAPACITY
    && r.head == Wrap16(h) && r.tail == Wrap16(t)
    && r.popped == r.accepted[..t]
    && (forall k :: t <= k < h ==> r.cells[Cell(k)] == r.accepted[k])
    && r.overflowCount == Wrap32(r.refused)
    && r.offered == h + r.refused + InCall(r.producer)
  }

  predicate ProducerInv(r: Ring) {
    var h, t := |r.accepted|, |r.popped|;
    match r.producer
    case PIdle => true
    case PLoop(b, n) => n <= |b|
    case PLoaded(b, n, head) => n < |b| && head == Wrap16(h)
    case PRoom(b, n, head) => n < |b| && head == Wrap16(h) && h < t + CAPACITY
    case PWritten(b, n, head) =>
      && n < |b| && head == Wrap16(h) && h < t + CAPACITY
      && |r.cells| == CAPACITY && r.cells[Cell(h)] == b[n]
  }

  /** The consumer never asks for more than was queued when it looked. */
  predicate ConsumerInv(r: Ring) {
    var h, t := |r.accepted|, |r.popped|;
    match r.consumer
    case CIdle => true
    case CSized(head) => exists seen: nat :: t <= seen <= h && head == Wrap16(seen)
    case CLoop(c, out) => |out| <= c <= MAX_PAYLOAD && t + c - |out| <= h
    case CLoaded(c, out, tail) => |out| < c <= MAX_PAYLOAD && t + c - |out| <= h && tail == Wrap16(t)
    case CNonEmpty(c, out, tail) => |out| < c <= MAX_PAYLOAD && t + c - |out| <= h && tail == Wrap16(t)
    case CTaken(c, out, tail) =>
      && 0 < |out| <= c <= MAX_PAYLOAD && t + c - |out| + 1 <= h && tail == Wrap16(t)
      && out[|out| - 1] == r.accepted[t]
  }

  predicate PacketsInv(r: Ring) {
    && (forall i :: 0 <= i < |r.packets| ==> r.packets[i].count <= MAX_PAYLOAD && |r.packets[i].payload| == MAX_PAYLOAD)
    && r.popped == Payloads(r.packets) + Filling(r.consumer)
  }

  predicate Inv(r: Ring) {
    RingInv(r) && ProducerInv(r) && ConsumerInv(r) && PacketsInv(r)
  }

  lemma StartInv(r: Ring)
    requires Start(r)
    ensures Inv(r)
  {
  }

  /** Publishing a byte: the queued cells keep their bytes because the written cell lies
      outside the queue. */
  lemma ProducerWrites(r: Ring)
    requires Inv(r) && r.producer.PRoom?
    ensures Inv(ProducerStep(r, []))
  {
    var h, t := |r.accepted|, |r.popped|;
    CellOfCounter(h);
    forall k | t <= k < h
      ensures Cell(k) != Cell(h)
    {
      OtherCells(h, k);
    }
  }

  lemma ProducerPublishes(r: Ring)
    requires Inv(r) && r.producer.PWritten?
    ensures Inv(ProducerStep(r, []))
  {
    NextCounter(|r.accepted|);
    var r' := ProducerStep(r, []);
    assert r'.popped == r'.accepted[..|r'.popped|];
    match r.consumer {
      case CSized(head) =>
        var seen: nat :| |r.popped| <= seen <= |r.accepted| && head == Wrap16(seen);
        assert |r'.popped| <= seen <= |r'.accepted|;
      case _ =>
    }
  }

  lemma ProducerChecks(r: Ring)
    requires Inv(r) && r.producer.PLoaded?
    ensures Inv(ProducerStep(r, []))
  {
    CountersAgree(|r.accepted|, |r.popped|);
    WrapSum(r.refused, |r.producer.bytes| - r.producer.pushed);
  }

  lemma ProducerInvStep(r: Ring, bytes: seq<uint8>)
    requires Inv(r)
    ensures Inv(ProducerStep(r, bytes))
  {
    match r.producer
    case PIdle =>
    case PLoop(_, _) =>
    case PLoaded(_, _, _) => ProducerChecks(r);
    case PRoom(_, _, _) => ProducerWrites(r);
    case PWritten(_, _, _) => ProducerPublishes(r);
  }

  lemma ConsumerSizes(r: Ring)
    requires Inv(r) && (r.consumer.CIdle? || r.consumer.CSized?)
    ensures Inv(ConsumerStep(r))
  {
    if r.consumer.CIdle? {
      assert |r.popped| <= |r.accepted| && r.head == Wrap16(|r.accepted|);
    } else {
      var seen: nat :| |r.popped| <= seen <= |r.accepted| && r.consumer.head == Wrap16(seen);
      CountersAgree(seen, |r.popped|);
    }
  }

  /** The queue cannot run empty under a packer that has seen its bytes queued. */
  lemma ConsumerFindsBytes(r: Ring)
    requires Inv(r) && r.consumer.CLoaded?
    ensures Inv(ConsumerStep(r)) && ConsumerStep(r).consumer.CNonEmpty?
  {
    CountersAgree(|r.accepted|, |r.popped|);
  }

  /** The cell read is that of the oldest published, not yet popped byte. */
  lemma ConsumerReadsPublished(r: Ring)
    requires Inv(r) && r.consumer.CNonEmpty?
    ensures |r.popped| < |r.accepted| && r.cells[Cell(r.consumer.tail)] == r.accepted[|r.popped|]
    ensures Inv(ConsumerStep(r))
  {
    CellOfCounter(|r.popped|);
    var c := ConsumerStep(r).consumer;
    assert c.out[..|c.out| - 1] == r.consumer.out;
  }

  lemma ConsumerReleases(r: Ring)
    requires Inv(r) && r.consumer.CTaken?
    ensures Inv(ConsumerStep(r))
  {
    NextCounter(|r.popped|);
    var out := r.consumer.out;
    assert out == out[..|out| - 1] + [out[|out| - 1]];
    var r' := ConsumerStep(r);
    assert r'.popped == r'.accepted[..|r'.popped|];
    assert r'.popped == Payloads(r.packets) + out;
  }

  lemma ConsumerFinishes(r: Ring)
    requires Inv(r) && r.consumer.CLoop?
    ensures Inv(ConsumerStep(r))
    ensures ConsumerStep(r).consumer.CIdle? ==> |r.consumer.out| == r.consumer.count
  {
    var out, c := r.consumer.out, r.consumer.count;
    if |out| == c {
      var p := AirportPacket(c, out + Zeros(MAX_PAYLOAD - |out|));
      var ps := r.packets + [p];
      assert ps[..|ps| - 1] == r.packets && ps[|ps| - 1] == p && p.payload[..c] == out;
      assert Payloads(ps) + [] == Payloads(ps);
    }
  }

  lemma ConsumerInvStep(r: Ring)
    requires Inv(r)
    ensures Inv(ConsumerStep(r))
  {
    match r.consumer
    case CIdle => ConsumerSizes(r);
    case CSized(_) => ConsumerSizes(r);
    case CLoop(_, _) => ConsumerFinishes(r);
    case CLoaded(_, _, _) => ConsumerFindsBytes(r);
    case CNonEmpty(_, _, _) => ConsumerReadsPublished(r);
    case CTaken(_, _, _) => ConsumerReleases(r);
  }

  // ----- every interleaving -----

  datatype Side = Interrupt(bytes: seq<uint8>) | MainLoop

  function Step(r: Ring, side: Side): Ring
    requires |r.cells| == CAPACITY
  {
    match side
    case Interrupt(bytes) => ProducerStep(r, bytes)
    case MainLoop => ConsumerStep(r)
  }

  lemma StepInv(r: Ring, side: Side)
    requires Inv(r)
    ensures Inv(Step(r, side))
  {
    match side
    case Interrupt(bytes) => ProducerInvStep(r, bytes);
    case MainLoop => ConsumerInvStep(r);
  }

  function Run(r: Ring, sides: seq<Side>): (z: Ring)
    requires Inv(r)
    ensures Inv(z)
    decreases |sides|
  {
    if sides == [] then r
    else
      StepInv(r, sides[0]);
      Run(Step(r, sides[0]), sides[1..])
  }

  lemma NothingUncounted(h: nat, t: nat, refused: nat)
    requires t <= h
    ensures Wrap32(t + (h - t) + Wrap32(refused)) == Wrap32(h + refused)
  {
    WrapSum(refused, h);
  }

  /** In every interleaving from reset: what was popped is a prefix of what was accepted,
      the counters give the true occupancy, between 0 and the capacity, and between calls
      every offered byte has been popped, is queued or was counted as overflow. */
  lemma RingIsLinearizable(r0: Ring, sides: seq<Side>)
    requires Start(r0)
    ensures Inv(r0)
    ensures var r := Run(r0, sides);
            && |r.popped| <= |r.accepted| && r.popped == r.accepted[..|r.popped|]
            && Occupancy(r.head, r.tail) == |r.accepted| - |r.popped| <= CAPACITY
            && (r.producer.PIdle? ==>
                  Wrap32(|r.popped| + Occupancy(r.head, r.tail) + r.overflowCount) == Wrap32(r.offered))
  {
    StartInv(r0);
    InvMeansLinearizable(Run(r0, sides));
  }

  lemma InvMeansLinearizable(r: Ring)
    requires RingInv(r)
    ensures Occupancy(r.head, r.tail) == |r.accepted| - |r.popped| <= CAPACITY
    ensures r.producer.PIdle? ==>
              Wrap32(|r.popped| + Occupancy(r.head, r.tail) + r.overflowCount) == Wrap32(r.offered)
  {
    CountersAgree(|r.accepted|, |r.popped|);
    NothingUncounted(|r.accepted|, |r.popped|, r.refused);
  }

  /** Even with the interrupt running, every packet's count is the number of bytes popped
      for it: the packets' payloads concatenate to the popped bytes. */
  lemma PacketsCarryWhatWasPopped(r0: Ring, sides: seq<Side>)
    requires Start(r0)
    ensures Inv(r0)
    ensures var r := Run(r0, sides);
            && r.popped == Payloads(r.packets) + Filling(r.consumer)
            && (forall i :: 0 <= i < |r.packets| ==> r.packets[i].count <= MAX_PAYLOAD == |r.packets[i].payload|)
  {
    StartInv(r0);
  }

  // ----- nothing is refused or left without need -----

  /** Bytes are refused only when, at that very step, all 128 cells are taken. */
  lemma RefusesOnlyWhenFull(r: Ring)
    requires Inv(r) && r.producer.PLoaded?
    ensures var r' := ProducerStep(r, []);
            if |r.accepted| - |r.popped| == CAPACITY then
              r'.producer.PIdle? && r'.refused == r.refused + |r.producer.bytes| - r.producer.pushed
            else r' == r.(producer := PRoom(r.producer.bytes, r.producer.pushed, r.head))
  {
    CountersAgree(|r.accepted|, |r.popped|);
  }

  /** Left alone, a producer with bytes to push and room for one publishes exactly that one. */
  lemma ProducerPublishesNext(r: Ring)
    requires Inv(r) && r.producer.PLoop? && r.producer.pushed < |r.producer.bytes|
    requires |r.accepted| - |r.popped| < CAPACITY
    ensures var r1 := ProducerStep(r, []);
            var r2 := ProducerStep(r1, []);
            var r4 := ProducerStep(ProducerStep(r2, []), []);
            && r4.accepted == r.accepted + [r.producer.bytes[r.producer.pushed]]
            && r4.producer == PLoop(r.producer.bytes, r.producer.pushed + 1) && r4.refused == r.refused
  {
    ProducerInvStep(r, []);
    RefusesOnlyWhenFull(ProducerStep(r, []));
  }

  /** A packet takes what was queued when the consumer looked, up to ten bytes. */
  lemma PacketTakesWhatIsThere(r: Ring, seen: nat)
    requires Inv(r) && r.consumer.CSized? && |r.popped| <= seen <= |r.accepted| && r.consumer.head == Wrap16(seen)
    ensures ConsumerStep(r).consumer == CLoop(Min(MAX_PAYLOAD, seen - |r.popped|), [])
  {
    CountersAgree(seen, |r.popped|);
  }

  /** Left alone, a consumer whose packet is not full pops exactly the oldest byte. */
  lemma ConsumerPopsNext(r: Ring)
    requires Inv(r) && r.consumer.CLoop? && |r.consumer.out| < r.consumer.count
    ensures var r4 := ConsumerStep(ConsumerStep(ConsumerStep(ConsumerStep(r))));
            && |r.popped| < |r.accepted| && r4.popped == r.popped + [r.accepted[|r.popped|]]
            && r4.consumer == CLoop(r.consumer.count, r.consumer.out + [r.accepted[|r.popped|]])
  {
    ConsumerInvStep(r);
    var r1 := ConsumerStep(r);
    ConsumerFindsBytes(r1);
    ConsumerReadsPublished(ConsumerStep(r1));
  }

  // ----- the lossy packet link -----

  /** The receiving end: packets that arrive are unpacked into the output ring, whose
      bytes the serial port takes out in order. */
  datatype Output = Output(queued: seq<uint8>, sent: seq<uint8>, overflowed: bool)

  function Unpack(o: Output, p: AirportPacket): Output
    requires |p.payload| == MAX_PAYLOAD && |o.queued| <= CAPACITY
  {
    if p.count > MAX_PAYLOAD then o
    else if |o.queued| + p.count <= CAPACITY then o.(queued := o.queued + p.payload[..p.count])
    else o.(queued := o.queued + p.payload[..CAPACITY - |o.queued|], overflowed := true)
  }

  /** Of a sane packet as many bytes are queued as fit; only a byte too many is an overflow. */
  lemma UnpackKeepsWhatFits(o: Output, p: AirportPacket)
    requires |p.payload| == MAX_PAYLOAD && |o.queued| <= CAPACITY
    ensures var o' := Unpack(o, p);
            var fits := if p.count > MAX_PAYLOAD then 0 else Min(p.count, CAPACITY - |o.queued|);
            && o'.queued == o.queued + p.payload[..fits] && o'.sent == o.sent
            && (o'.overflowed <==> o.overflowed || fits < p.count <= MAX_PAYLOAD)
  {
  }

  datatype LinkEvent = Arrives | Lost | SerialWrite(length: nat)

  /** `next` counts the packets the radio has dealt with, `arrived` names those it delivered. */
  datatype Link = Link(next: nat, arrived: seq<nat>, output: Output)

  predicate PacketsAreSane(ps: seq<AirportPacket>) {
    forall i :: 0 <= i < |ps| ==> ps[i].count <= MAX_PAYLOAD == |ps[i].payload|
  }

  function LinkStep(ps: seq<AirportPacket>, k: Link, e: LinkEvent): Link
    requires PacketsAreSane(ps) && |k.output.queued| <= CAPACITY
  {
    match e
    case Arrives =>
      if k.next < |ps| then Link(k.next + 1, k.arrived + [k.next], Unpack(k.output, ps[k.next])) else k
    case Lost => if k.next < |ps| then k.(next := k.next + 1) else k
    case SerialWrite(n) =>
      var m := Min(n, |k.output.queued|);
      k.(output := k.output.(queued := k.output.queued[m..], sent := k.output.sent + k.output.queued[..m]))
  }

  /** Payload bytes of the packets with the given numbers, in that order. */
  function Selected(ps: seq<AirportPacket>, numbers: seq<nat>): seq<uint8>
    requires PacketsAreSane(ps) && (forall i :: 0 <= i < |numbers| ==> numbers[i] < |ps|)
  {
    if numbers == [] then []
    else
      var last := ps[numbers[|numbers| - 1]];
      Selected(ps, numbers[..|numbers| - 1]) + last.payload[..last.count]
  }

  predicate LinkInv(ps: seq<AirportPacket>, k: Link) {
    && PacketsAreSane(ps) && |k.output.queued| <= CAPACITY && k.next <= |ps|
    && (forall i :: 0 <= i < |k.arrived| ==> k.arrived[i] < k.next)
    && (forall i, j :: 0 <= i < j < |k.arrived| ==> k.arrived[i] < k.arrived[j])
    && (!k.output.overflowed ==> k.output.sent + k.output.queued == Selected(ps, k.arrived))
  }

  lemma SelectedGrows(ps: seq<AirportPacket>, numbers: seq<nat>, n: nat)
    requires PacketsAreSane(ps) && (forall i :: 0 <= i < |numbers| ==> numbers[i] < |ps|) && n < |ps|
    ensures forall i :: 0 <= i < |numbers + [n]| ==> (numbers + [n])[i] < |ps|
    ensures Selected(ps, numbers + [n]) == Selected(ps, numbers) + ps[n].payload[..ps[n].count]
  {
    assert (numbers + [n])[..|numbers|] == numbers;
  }

  /** Without overflow the whole payload goes behind what is there. */
  lemma UnpackAppends(o: Output, p: AirportPacket)
    requires p.count <= MAX_PAYLOAD == |p.payload| && |o.queued| <= CAPACITY
    ensures var o' := Unpack(o, p);
            && |o'.queued| <= CAPACITY
            && (!o'.overflowed ==> !o.overflowed && o'.sent + o'.queued == (o.sent + o.queued) + p.payload[..p.count])
  {
  }

  lemma ArrivesInv(ps: seq<AirportPacket>, k: Link)
    requires LinkInv(ps, k) && k.next < |ps|
    ensures LinkInv(ps, LinkStep(ps, k, Arrives))
  {
    UnpackAppends(k.output, ps[k.next]);
    SelectedGrows(ps, k.arrived, k.next);
  }

  lemma SerialWriteInv(ps: seq<AirportPacket>, k: Link, n: nat)
    requires LinkInv(ps, k)
    ensures LinkInv(ps, LinkStep(ps, k, SerialWrite(n)))
  {
    var k' := LinkStep(ps, k, SerialWrite(n));
    assert k'.output.sent + k'.output.queued == k.output.sent + k.output.queued;
  }

  lemma LinkStepInv(ps: seq<AirportPacket>, k: Link, e: LinkEvent)
    requires LinkInv(ps, k)
    ensures LinkInv(ps, LinkStep(ps, k, e))
  {
    match e
    case Arrives => if k.next < |ps| { ArrivesInv(ps, k); }
    case Lost =>
    case SerialWrite(n) => SerialWriteInv(ps, k, n);
  }

  function LinkRun(ps: seq<AirportPacket>, k: Link, es: seq<LinkEvent>): (z: Link)
    requires LinkInv(ps, k)
    ensures LinkInv(ps, z)
    decreases |es|
  {
    if es == [] then k
    else
      LinkStepInv(ps, k, es[0]);
      LinkRun(ps, LinkStep(ps, k, es[0]), es[1..])
  }

  function NothingArrived(): Link { Link(0, [], Output([], [], false)) }

  /** End to end: over any interleaving at the sending end and any losses on the air, as
      long as the output ring did not overflow, the delivered stream is the concatenation,
      in order, of whole payloads of some of the packets; and all the packets together
      carry a prefix of the accepted input. */
  lemma StreamIsSelectionOfPayloads(r0: Ring, sides: seq<Side>, es: seq<LinkEvent>)
    requires Start(r0)
    ensures Inv(r0)
    ensures var ps := Run(r0, sides).packets;
            LinkInv(ps, NothingArrived())
    ensures var ps := Run(r0, sides).packets;
            var k := LinkRun(ps, NothingArrived(), es);
            && (!k.output.overflowed ==> k.output.sent + k.output.queued == Selected(ps, k.arrived))
            && (forall i, j :: 0 <= i < j < |k.arrived| ==> k.arrived[i] < k.arrived[j] < |ps|)
    ensures var r := Run(r0, sides);
            && |Payloads(r.packets)| <= |r.accepted|
            && Payloads(r.packets) == r.accepted[..|Payloads(r.packets)|]
  {
    StartInv(r0);
    var r := Run(r0, sides);
    assert Selected(r.packets, []) == [];
    assert Payloads(r.packets) == r.popped[..|Payloads(r.packets)|];
  }

  // ----- nothing lost -----

  lemma {:induction false} AllSelected(ps: seq<AirportPacket>, numbers: seq<nat>)
    requires PacketsAreSane(ps) && |numbers| <= |ps| && (forall i :: 0 <= i < |numbers| ==> numbers[i] == i)
    ensures Selected(ps, numbers) == Payloads(ps[..|numbers|])
  {
    if numbers == [] {
    } else {
      var n := |numbers| - 1;
      AllSelected(ps, numbers[..n]);
      assert ps[..n + 1][..n] == ps[..n];
    }
  }

  lemma {:induction false} FirstPayloads(ps: seq<AirportPacket>, n: nat)
    requires n <= |ps|
    ensures |Payloads(ps[..n])| <= |Payloads(ps)| && Payloads(ps[..n]) == Payloads(ps)[..|Payloads(ps[..n])|]
    decreases |ps|
  {
    if n == |ps| {
      assert ps[..n] == ps;
    } else {
      var m := |ps| - 1;
      FirstPayloads(ps[..m], n);
      assert ps[..m][..n] == ps[..n];
    }
  }

  /** Every packet that the radio dealt with has arrived. */
  predicate InSequence(k: Link) {
    |k.arrived| == k.next && forall i :: 0 <= i < |k.arrived| ==> k.arrived[i] == i
  }

  lemma {:induction false} LosslessArrivals(ps: seq<AirportPacket>, k: Link, es: seq<LinkEvent>)
    requires LinkInv(ps, k) && InSequence(k) && (forall i :: 0 <= i < |es| ==> !es[i].Lost?)
    ensures InSequence(LinkRun(ps, k, es))
    decreases |es|
  {
    if es == [] {
    } else {
      LinkStepInv(ps, k, es[0]);
      LosslessArrivals(ps, LinkStep(ps, k, es[0]), es[1..]);
    }
  }

  /** With nothing lost and no overflow, what comes out at one end is the beginning of what
      was accepted at the other: the payloads of the packets dealt with so far, and no byte
      is missing, repeated or out of place. */
  lemma LosslessStreamIsTheInput(r0: Ring, sides: seq<Side>, es: seq<LinkEvent>)
    requires Start(r0) && (forall i :: 0 <= i < |es| ==> !es[i].Lost?)
    ensures Inv(r0)
    ensures LinkInv(Run(r0, sides).packets, NothingArrived())
    ensures var r := Run(r0, sides);
            var k := LinkRun(r.packets, NothingArrived(), es);
            var out := k.output.sent + k.output.queued;
            !k.output.overflowed ==>
              && out == Payloads(r.packets[..k.next])
              && |out| <= |r.accepted| && out == r.accepted[..|out|]
  {
    StreamIsSelectionOfPayloads(r0, sides, es);
    var r := Run(r0, sides);
    var k := LinkRun(r.packets, NothingArrived(), es);
    LosslessArrivals(r.packets, NothingArrived(), es);
    if !k.output.overflowed {
      OutIsBeginning(r.packets, k, r.accepted);
    }
  }

  lemma OutIsBeginning(ps: seq<AirportPacket>, k: Link, accepted: seq<uint8>)
    requires LinkInv(ps, k) && InSequence(k) && !k.output.overflowed
    requires |Payloads(ps)| <= |accepted| && Payloads(ps) == accepted[..|Payloads(ps)|]
    ensures var out := k.output.sent + k.output.queued;
            out == Payloads(ps[..k.next]) && |out| <= |accepted| && out == accepted[..|out|]
  {
    AllSelected(ps, k.arrived);
    FirstPayloads(ps, k.next);
    var out, all := Payloads(ps[..k.next]), Payloads(ps);
    assert all[..|out|] == accepted[..|out|];
  }
}
