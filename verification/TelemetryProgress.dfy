/** What the telemetry driver gets done: the rhythm of link statistics and data, and a polled
    message brought to the other end. */
module TelemetryProgress {
  import opened Widths
  import opened StubbornEndpoints
  import opened StubbornLink
  import opened StubbornRecovery
  import opened StubbornDelivery
  import opened TelemetryPort

  // ----- the rhythm ---------------------------------------------------------------

  function PrepareTimes(p: Port, times: nat): (q: Port)
    requires InBounds(p)
    ensures InBounds(q) && (q.y.s.phase.Idle? <==> p.y.s.phase.Idle?) && q.burstMax == p.burstMax
  {
    if times == 0 then p else Prepare(PrepareTimes(p, times - 1))
  }

  /** After link statistics come as many data packets as the burst allows, at least one, and
      then link statistics again; counted in packets prepared while a message is under way. */
  lemma {:induction false} BurstLength(p: Port, times: nat)
    requires InBounds(p) && !p.y.s.phase.Idle? && !p.nextIsLink && p.burstCount == 1
    requires times <= if p.burstMax > 1 then p.burstMax as int else 1
    ensures var q := PrepareTimes(p, times);
            && (times >= 1 ==> q.queued.Some? && q.queued.value.size == DATA_PAYLOAD)
            && (q.nextIsLink <==> times == if p.burstMax > 1 then p.burstMax as int else 1)
            && (!q.nextIsLink ==> q.burstCount == times + 1)
    decreases times
  {
    if times == 0 {
    } else {
      BurstLength(p, times - 1);
    }
  }

  /** Link statistics take the small field and begin a new burst; without a message under way
      every packet is one. */
  lemma LinkStatistics(p: Port)
    requires InBounds(p)
    ensures Prepare(p).queued.value.size == LINK_STATS_PAYLOAD <==> p.nextIsLink || p.y.s.phase.Idle?
    ensures p.nextIsLink || p.y.s.phase.Idle? ==> !Prepare(p).nextIsLink && Prepare(p).burstCount == 1
  {
  }

  // ----- a message through --------------------------------------------------------

  /** The packet goes out and arrives, and the next RC packet brings its acknowledgement. */
  function Exchange(p: Port): (q: Port)
    requires PortInv(p)
    ensures PortInv(q)
  {
    PortStepInv(p, TxDone(true));
    var p1 := PortStep(p, TxDone(true));
    PortStepInv(p1, RcPacket);
    PortStep(p1, RcPacket)
  }

  /** One full exchange after the other. */
  predicate Exchanges(ps: seq<Port>) {
    forall i :: 1 <= i < |ps| ==> IsExchange(ps[i - 1], ps[i])
  }

  predicate IsExchange(p: Port, q: Port) { PortInv(p) && q == Exchange(p) }

  lemma OneBefore(p: Port, ps: seq<Port>)
    requires ps != [] && Exchanges(ps) && IsExchange(p, ps[0])
    ensures Exchanges([p] + ps)
  {
    forall i | 1 <= i < |[p] + ps| ensures IsExchange(([p] + ps)[i - 1], ([p] + ps)[i]) {
      if i > 1 {
        assert IsExchange(ps[i - 2], ps[i - 1]);
      }
    }
  }

  /** A message under way, its packet in the radio, with enough indices even for the small
      field. */
  predicate Loaded(p: Port) {
    && PortInv(p) && p.queued.Some? && p.slot == p.queued
    && p.queued.value.size >= LINK_STATS_PAYLOAD && !p.y.s.phase.Idle?
    && UnderWay(p.y.s, p.y.r, p.queued.value.size) && Offered(p.y.s, p.y.r) && DATA_PAYLOAD <= |p.y.r.data|
    && (p.y.s.phase.Sending? ==> RoomLeft(p.y.s, LINK_STATS_PAYLOAD))
  }

  /** Room for the small field is room for any. */
  lemma {:induction false} MoreRoom(index: nat, max: nat, n: nat, bigger: nat)
    requires n <= bigger
    ensures Room(index, max, n) <= Room(index, max, bigger)
    decreases max + 1 - index
  {
    if index > max {
    } else {
      MoreRoom(index + 1, max, n, bigger);
    }
  }

  lemma RoomStays(s: SenderState, s': SenderState, n: uint8)
    requires RoomLeft(s, LINK_STATS_PAYLOAD) && n >= LINK_STATS_PAYLOAD && s'.data == s.data
    requires s'.maxPackageIndex == s.maxPackageIndex && s'.currentPackage == s.currentPackage + 1
    requires s'.currentOffset == s.currentOffset + n < |s.data|
    ensures RoomLeft(s', LINK_STATS_PAYLOAD)
  {
    assert Room(s.currentPackage, s.maxPackageIndex, LINK_STATS_PAYLOAD)
        == LINK_STATS_PAYLOAD + Room(s.currentPackage + 1, s.maxPackageIndex, LINK_STATS_PAYLOAD);
    assert Room(s.maxPackageIndex + 1, s.maxPackageIndex, LINK_STATS_PAYLOAD) == 0;
  }

  /** What the transmission leaves: the packet has arrived, and is kept for a repeat. */
  lemma PacketArrives(p: Port)
    requires Loaded(p)
    ensures var q := PortStep(p, TxDone(true));
            && PortInv(q) && q == p.(y := q.y, armed := true)
            && q.y.s == p.y.s && UnderWay(q.y.s, q.y.r, p.queued.value.size)
            && Arrived(q.y.s, q.y.r, p.queued.value.size) && |q.y.r.data| == |p.y.r.data|
            && q.y.submitted == p.y.submitted
  {
    PortStepInv(p, TxDone(true));
    ArrivalTakes(p.y.s, p.y.r, p.queued.value.size);
  }

  /** Bytes and closing packet still to be acknowledged. */
  function Left(s: SenderState): nat
    requires s.currentOffset <= |s.data|
  {
    match s.phase
    case Idle => 0
    case WaitUntilNextConfirm => 1
    case _ => |s.data| - s.currentOffset + 2
  }

  lemma AcknowledgedStep(s: SenderState, r: ReceiverState, n: uint8)
    requires UnderWay(s, r, n) && Arrived(s, r, n) && n >= LINK_STATS_PAYLOAD
    requires s.phase.Sending? || s.phase.WaitUntilNextConfirm?
    requires s.phase.Sending? ==> RoomLeft(s, LINK_STATS_PAYLOAD)
    ensures var s' := Confirm(s, r.confirm);
            && UnderWay(s', r, n) && s'.data == s.data && s'.maxPackageIndex == s.maxPackageIndex
            && s'.expected != s.expected && Left(s') < Left(s)
            && (s'.phase.Idle? || s'.phase.WaitUntilNextConfirm? || s'.phase.Sending?)
            && (s'.phase.Sending? ==> RoomLeft(s', LINK_STATS_PAYLOAD))
            && (!s'.phase.Idle? ==> Offered(s', r))
  {
    AcknowledgementMoves(s, r, n);
    var s' := Confirm(s, r.confirm);
    if s.phase.Sending? && s'.phase.Sending? {
      assert s'.currentOffset == s.currentOffset + n;
      RoomStays(s, s', n);
    }
  }

  /** The same chunk, not yet arrived, may be offered in any size. */
  lemma OfferedInAnySize(s: SenderState, r: ReceiverState, n: uint8, n': uint8)
    requires UnderWay(s, r, n) && Offered(s, r) && !s.phase.Idle? && !s.phase.SendPending?
    requires LINK_STATS_PAYLOAD <= n' <= |r.data|
    requires s.phase.Sending? ==> RoomLeft(s, LINK_STATS_PAYLOAD)
    ensures var s1 := GetPayload(s, n').0;
            && UnderWay(s1, r, n') && Offered(s1, r) && s1.phase == s.phase && s1.data == s.data && Left(s1) == Left(s)
            && (s1.phase.Sending? ==> RoomLeft(s1, LINK_STATS_PAYLOAD))
  {
    MoreRoom(s.currentPackage, s.maxPackageIndex, LINK_STATS_PAYLOAD, n');
    assert UnderWay(s, r, n');
    StillOffered(s, r, n');
  }

  /** The message that `p` is at has been finished by the other end. */
  predicate Brings(p: Port, q: Port) {
    q.y.s.phase.Idle? && q.y.r.finished && Holds(q.y.r.data, p.y.s.data) && q.y.submitted == p.y.submitted
  }

  predicate GoesOn(p: Port, q: Port) {
    Loaded(q) && q.y.s.data == p.y.s.data && q.y.submitted == p.y.submitted
  }

  lemma ExchangeMoves(p: Port)
    requires Loaded(p)
    ensures var q := Exchange(p);
            if q.y.s.phase.Idle? then Brings(p, q) else GoesOn(p, q) && Left(q.y.s) < Left(p.y.s)
  {
    var n := p.queued.value.size;
    PacketArrives(p);
    var p1 := PortStep(p, TxDone(true));
    AcknowledgedStep(p1.y.s, p1.y.r, n);
    var s' := Confirm(p1.y.s, p1.y.r.confirm);
    var p2 := p1.(y := Step(p1.y, Acknowledge));
    assert Exchange(p) == Prepare(p2);
    if !s'.phase.Idle? {
      OfferedInAnySize(s', p1.y.r, n, NextSize(p2));
    }
  }

  lemma LeftIsPositive(p: Port)
    requires Loaded(p)
    ensures Left(p.y.s) >= 1
  {
  }

  lemma NextExchange(p: Port) returns (q: Port)
    requires Loaded(p)
    ensures IsExchange(p, q) && Left(p.y.s) >= 1
    ensures if q.y.s.phase.Idle? then Brings(p, q) else GoesOn(p, q) && Left(q.y.s) < Left(p.y.s)
  {
    LeftIsPositive(p);
    ExchangeMoves(p);
    q := Exchange(p);
  }

  lemma BringsOn(p: Port, q: Port, z: Port)
    requires GoesOn(p, q) && Brings(q, z)
    ensures Brings(p, z)
  {
  }

  lemma {:induction false} ExchangesDeliver(p: Port, limit: nat) returns (ps: seq<Port>)
    requires Loaded(p) && Left(p.y.s) <= limit
    ensures 2 <= |ps| <= limit + 1 && ps[0] == p && Exchanges(ps) && Brings(p, ps[|ps| - 1])
    decreases limit
  {
    var q := NextExchange(p);
    if q.y.s.phase.Idle? {
      ps := [p, q];
    } else {
      var rest := ExchangesDeliver(q, limit - 1);
      OneBefore(p, rest);
      ps := [p] + rest;
      BringsOn(p, q, rest[|rest| - 1]);
    }
  }

  lemma PolledIsLoaded(p: Port, m: Message)
    requires PortInv(p) && p.y.s.phase.Idle? && Fresh(p.y.r) && DATA_PAYLOAD <= |p.y.r.data| && |m| <= |p.y.r.data|
    requires |m| <= p.y.s.maxPackageIndex * LINK_STATS_PAYLOAD && p.y.s.maxWaitCount < 0xFFFF
    ensures var q := PortStep(p, Poll(m));
            Loaded(q) && q.y.s.data == m && q.y.submitted == p.y.submitted + [m] && q.y.s.currentOffset == 0
            && q.y.s.phase.Sending?
  {
    PollInv(p, m);
    AllRoom(p.y.s.maxPackageIndex, LINK_STATS_PAYLOAD);
    var p1 := p.(y := Step(p.y, Submit(m)));
    var n := NextSize(p1);
    MoreRoom(1, p.y.s.maxPackageIndex, LINK_STATS_PAYLOAD, n);
    assert UnderWay(p1.y.s, p1.y.r, n) && Offered(p1.y.s, p1.y.r);
    StillOffered(p1.y.s, p1.y.r, n);
  }

  /** A message polled by an idle driver is delivered: after no more full exchanges than it
      has bytes, plus two, whatever the mixture of link statistics and data, the driver is
      idle again and the other end has finished exactly that message. */
  lemma PolledMessageIsDelivered(p: Port, m: Message) returns (ps: seq<Port>)
    requires PortInv(p) && p.y.s.phase.Idle? && Fresh(p.y.r) && DATA_PAYLOAD <= |p.y.r.data| && |m| <= |p.y.r.data|
    requires |m| <= p.y.s.maxPackageIndex * LINK_STATS_PAYLOAD && p.y.s.maxWaitCount < 0xFFFF
    ensures 2 <= |ps| <= |m| + 3 && ps[0] == PortStep(p, Poll(m)) && Exchanges(ps)
    ensures var q := ps[|ps| - 1];
            && q.y.s.phase.Idle? && q.y.r.finished && Holds(q.y.r.data, m)
            && q.y.submitted == p.y.submitted + [m]
  {
    PolledIsLoaded(p, m);
    ps := ExchangesDeliver(PortStep(p, Poll(m)), |m| + 2);
  }

  /** An idle driver sends fresh link statistics after every transmission, never an old packet,
      and listens to no acknowledgement. */
  lemma IdleSendsStatistics(p: Port, delivered: bool)
    requires PortInv(p) && p.y.s.phase.Idle?
    ensures var q := PortStep(p, TxDone(delivered));
            && q.queued == q.slot == Some(Prepared(Packet(0, Zeros(LINK_STATS_PAYLOAD)), LINK_STATS_PAYLOAD))
            && !q.armed && q.y.s.phase.Idle? && !q.nextIsLink && q.burstCount == 1
            && PortStep(q, RcPacket) == q
  {
  }

  /** A busy driver repeats exactly the packet it has prepared. */
  lemma BusyRepeats(p: Port, delivered: bool)
    requires PortInv(p) && !p.y.s.phase.Idle? && p.queued.Some?
    ensures var q := PortStep(p, TxDone(delivered));
            q.slot == q.queued == p.queued && q.armed && q.nextIsLink == p.nextIsLink && q.burstCount == p.burstCount
  {
  }
}
