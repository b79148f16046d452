/** How the receiver's main program drives the stubborn sender for telemetry: it keeps
    one prepared packet, retransmits exactly that packet until an acknowledgement
    changed the sender, and listens to acknowledgements only once the packet has been on
    the air. Every run of this driver is a run of the link in `StubbornLink`. */
module TelemetryPort {
  import opened Widths
  import opened StubbornEndpoints
  import opened StubbornLink

  const LINK_STATS_PAYLOAD: uint8 := 6
  const DATA_PAYLOAD: uint8 := 10

  datatype Prepared = Prepared(packet: Packet, size: uint8)

  /** `queued` is the prepared packet while it is valid, `slot` what the radio sends next. */
  datatype Port = Port(
    y: System,
    queued: Option<Prepared>,
    slot: Option<Prepared>,
    armed: bool,
    nextIsLink: bool,
    burstCount: uint8,
    burstMax: uint8)

  datatype PortEvent =
    | Poll(message: Message)
    | TxDone(delivered: bool)
    | RcPacket
    | Taken
    | Rate(maxWaitCount: uint16, burstMax: uint8)
    | Reconfigure

  /** Link statistics take four of the ten payload bytes. */
  function NextSize(p: Port): uint8 {
    if p.nextIsLink || p.y.s.phase.Idle? then LINK_STATS_PAYLOAD else DATA_PAYLOAD
  }

  function Prepare(p: Port): Port
    requires p.y.s.currentOffset <= |p.y.s.data|
  {
    var size := NextSize(p);
    var link := size == LINK_STATS_PAYLOAD;
    var next := Some(Prepared(GetPayload(p.y.s, size).1, size));
    p.(y := Offer(p.y, size), queued := next, slot := next, armed := false,
       nextIsLink := !link && p.burstCount >= p.burstMax,
       burstCount := if link then 1 else if p.burstCount < p.burstMax then p.burstCount + 1 else p.burstCount)
  }

  /** The packet that would be prepared now carries the bytes of the chunk on offer, if the
      receiver has taken that. */
  predicate SafeNext(p: Port) {
    SafeToOffer(p.y.s, p.y.r, p.y.chunk, NextSize(p))
  }

  /** Polled messages fit the receive buffer. */
  predicate PortAllowed(p: Port, e: PortEvent) {
    e.Poll? ==> |e.message| <= |p.y.r.data|
  }

  /** A rate change drops the prepared packet: the next one must not cut the message
      differently under a receiver that has taken the chunk. */
  predicate BytesKept(p: Port, e: PortEvent) {
    e.Reconfigure? ==> SafeNext(p)
  }

  predicate InBounds(p: Port) {
    p.y.s.currentOffset <= |p.y.s.data| && p.y.r.currentOffset <= |p.y.r.data|
  }

  /** The radio sends what it holds, if anything. */
  function Transmit(p: Port, delivered: bool): System
    requires InBounds(p)
  {
    if delivered && p.slot.Some? then Deliver(p.y, p.slot.value.packet) else p.y
  }

  function AfterTransmission(p: Port): Port
    requires InBounds(p)
  {
    if p.y.s.phase.Idle? || p.queued.None? then Prepare(p)
    else p.(armed := true, slot := p.queued)
  }

  function AfterConfirm(p: Port): Port
    requires InBounds(p)
  {
    var s := Confirm(p.y.s, p.y.r.confirm);
    var p' := p.(y := Step(p.y, Acknowledge));
    var moved := s.currentOffset != p.y.s.currentOffset || s.phase != p.y.s.phase || s.expected != p.y.s.expected;
    if moved && s.currentOffset <= |s.data| then Prepare(p') else p'
  }

  function PortStep(p: Port, e: PortEvent): Port
    requires InBounds(p) && PortAllowed(p, e)
  {
    match e
    case Poll(m) =>
      if p.y.s.phase.Idle? then Prepare(p.(y := Step(p.y, Submit(m)))) else p
    case TxDone(delivered) =>
      AfterTransmission(p.(y := Transmit(p, delivered), slot := None))
    case RcPacket =>
      if p.armed then AfterConfirm(p) else p
    case Taken => p.(y := Step(p.y, Consume))
    case Rate(limit, burstMax) => p.(y := Step(p.y, Retune(limit)), burstMax := burstMax)
    case Reconfigure => p.(queued := None, slot := None, armed := false)
  }

  /** The prepared packet is what the sender would offer again, in the same size. */
  predicate PreparedInv(p: Port) {
    && InBounds(p)
    && (p.slot.Some? ==> p.slot == p.queued) && (p.armed ==> p.queued.Some?)
    && (p.queued.Some? ==>
          && p.queued.value.size >= 1
          && !p.y.s.phase.SendPending?
          && GetPayload(p.y.s, p.queued.value.size) == (p.y.s, p.queued.value.packet)
          && (p.y.s.phase.Sending? ==> p.y.chunk == Some(p.queued.value.size)))
    && (p.queued.None? ==> SafeNext(p) && !p.y.s.phase.SendPending?)
  }

  predicate PortInv(p: Port) {
    Inv(p.y) && PreparedInv(p)
  }

  lemma PreparePrepares(p: Port)
    requires InBounds(p)
    ensures PreparedInv(Prepare(p)) && Prepare(p).y == Offer(p.y, NextSize(p))
  {
  }

  lemma PrepareInv(p: Port)
    requires Inv(p.y) && InBounds(p)
    requires SafeNext(p)
    ensures PortInv(Prepare(p))
  {
    PreparePrepares(p);
    SendInv(p.y, NextSize(p), false);
  }

  /** Putting the prepared packet on the air is a `Send` of the link. */
  lemma TransmissionIsSend(p: Port, delivered: bool)
    requires PreparedInv(p) && p.slot.Some?
    ensures Allowed(p.y, Send(p.slot.value.size, delivered))
    ensures Transmit(p, delivered) == Step(p.y, Send(p.slot.value.size, delivered))
  {
    assert Offer(p.y, p.slot.value.size) == p.y;
  }

  lemma TransmissionInv(p: Port, delivered: bool)
    requires PortInv(p)
    ensures PortInv(PortStep(p, TxDone(delivered)))
  {
    if p.slot.Some? {
      TransmissionIsSend(p, delivered);
      SendInv(p.y, p.slot.value.size, delivered);
    }
    var p' := p.(y := Transmit(p, delivered), slot := None);
    if p.y.s.phase.Idle? || p.queued.None? {
      PrepareInv(p');
    }
  }

  lemma UnmovedConfirm(s: SenderState, confirm: bool)
    requires s.currentOffset <= |s.data|
    ensures var s' := Confirm(s, confirm);
            || (s'.phase == s.phase && s'.expected == s.expected && s' == s.(waitCount := s'.waitCount))
            || s'.phase != s.phase || s'.expected != s.expected
  {
  }

  /** When an acknowledgement moved the sender, no chunk is on offer any more. */
  lemma MovedConfirm(y: System)
    requires InBounds(Port(y, None, None, false, false, 0, 0))
    requires var s' := Confirm(y.s, y.r.confirm); s'.expected != y.s.expected || s'.phase != y.s.phase
    requires !y.s.phase.ResyncThenSend?
    ensures Confirm(y.s, y.r.confirm).phase.Sending? ==> Step(y, Acknowledge).chunk.None?
  {
  }

  lemma UnmovedStaysPrepared(p: Port)
    requires PreparedInv(p)
    requires var s' := Confirm(p.y.s, p.y.r.confirm); s'.expected == p.y.s.expected && s'.phase == p.y.s.phase
    ensures PreparedInv(AfterConfirm(p)) && AfterConfirm(p).y == Step(p.y, Acknowledge)
  {
    UnmovedConfirm(p.y.s, p.y.r.confirm);
  }

  lemma MovedIsPreparedAnew(p: Port)
    requires PortInv(p) && InBounds(p.(y := Step(p.y, Acknowledge)))
    requires Inv(Step(p.y, Acknowledge))
    requires var s' := Confirm(p.y.s, p.y.r.confirm); s'.expected != p.y.s.expected || s'.phase != p.y.s.phase
    ensures PortInv(AfterConfirm(p))
  {
    MovedConfirm(p.y);
    PrepareInv(p.(y := Step(p.y, Acknowledge)));
  }

  lemma ConfirmInv(p: Port)
    requires PortInv(p) && p.queued.Some?
    ensures PortInv(AfterConfirm(p))
  {
    AcknowledgeInv(p.y);
    var s' := Confirm(p.y.s, p.y.r.confirm);
    if s'.phase != p.y.s.phase || s'.expected != p.y.s.expected {
      MovedIsPreparedAnew(p);
    } else {
      UnmovedStaysPrepared(p);
    }
  }

  lemma RcInv(p: Port)
    requires PortInv(p)
    ensures PortInv(PortStep(p, RcPacket))
  {
    if p.armed { ConfirmInv(p); }
  }

  lemma PollInv(p: Port, m: Message)
    requires PortInv(p) && PortAllowed(p, Poll(m))
    ensures PortInv(PortStep(p, Poll(m)))
  {
    if p.y.s.phase.Idle? {
      SubmitInv(p.y, m);
      PrepareInv(p.(y := Step(p.y, Submit(m))));
    }
  }

  lemma TakenStaysPrepared(p: Port)
    requires PreparedInv(p)
    ensures PreparedInv(PortStep(p, Taken))
  {
  }

  lemma RateStaysPrepared(p: Port, limit: uint16, burstMax: uint8)
    requires PreparedInv(p)
    ensures PreparedInv(PortStep(p, Rate(limit, burstMax)))
  {
    if p.queued.Some? {
      RetunedPayload(p.y.s, limit, p.queued.value.size);
    }
  }

  lemma RetunedPayload(s: SenderState, limit: uint16, n: uint8)
    requires s.currentOffset <= |s.data|
    ensures var (s', p) := GetPayload(s, n);
            GetPayload(s.(maxWaitCount := limit), n) == (s'.(maxWaitCount := limit), p)
  {
  }

  lemma ReconfiguredStaysPrepared(p: Port)
    requires PreparedInv(p) && SafeNext(p)
    ensures PreparedInv(PortStep(p, Reconfigure))
  {
  }

  lemma OtherStepInv(p: Port, e: PortEvent)
    requires PortInv(p) && BytesKept(p, e) && (e.Taken? || e.Rate? || e.Reconfigure?)
    ensures PortInv(PortStep(p, e))
  {
    match e
    case Taken => TakenStaysPrepared(p); ConsumeInv(p.y);
    case Rate(limit, burstMax) => RateStaysPrepared(p, limit, burstMax); StepInv(p.y, Retune(limit));
    case Reconfigure => ReconfiguredStaysPrepared(p);
  }

  lemma PortStepInv(p: Port, e: PortEvent)
    requires PortInv(p) && PortAllowed(p, e) && BytesKept(p, e)
    ensures PortInv(PortStep(p, e))
  {
    match e
    case Poll(m) => PollInv(p, m);
    case TxDone(delivered) => TransmissionInv(p, delivered);
    case RcPacket => RcInv(p);
    case _ => OtherStepInv(p, e);
  }

  predicate PortStart(p: Port) {
    Start(p.y) && p.queued == None && p.slot == None && !p.armed
  }

  predicate PortRunAllowed(p: Port, es: seq<PortEvent>)
    decreases |es|
  {
    es == [] || (InBounds(p) && PortAllowed(p, es[0]) && PortRunAllowed(PortStep(p, es[0]), es[1..]))
  }

  function PortRun(p: Port, es: seq<PortEvent>): Port
    requires PortRunAllowed(p, es)
    decreases |es|
  {
    if es == [] then p else PortRun(PortStep(p, es[0]), es[1..])
  }

  predicate BytesAlwaysKept(p: Port, es: seq<PortEvent>)
    requires PortRunAllowed(p, es)
    decreases |es|
  {
    es == [] || (BytesKept(p, es[0]) && BytesAlwaysKept(PortStep(p, es[0]), es[1..]))
  }

  lemma {:induction false} PortRunInv(p: Port, es: seq<PortEvent>)
    requires PortInv(p) && PortRunAllowed(p, es) && BytesAlwaysKept(p, es)
    ensures PortInv(PortRun(p, es))
    decreases |es|
  {
    if es == [] {
    } else {
      PortStepInv(p, es[0]);
      PortRunInv(PortStep(p, es[0]), es[1..]);
    }
  }

  /** The driver keeps the bytes of a taken chunk by itself, except across rate changes. So
      every run of it from reset whose rate changes keep them too is exactly-once: what the
      owner of the receive buffer took out is an in-order, duplicate-free selection of the
      polled messages, and a finished buffer starts with the bytes of its message. */
  lemma DriverIsExactlyOnce(p: Port, es: seq<PortEvent>)
    requires PortStart(p) && PortRunAllowed(p, es) && BytesAlwaysKept(p, es)
    ensures var z := PortRun(p, es).y;
            && Increasing(z.completed) && (forall i :: 0 <= i < |z.completed| ==> 0 <= z.completed[i] < |z.submitted|)
            && Increasing(z.consumed) && (forall x :: x in z.consumed ==> x in z.completed)
            && (z.r.finished ==> z.completed != [] && Holds(z.r.data, z.submitted[Last(z.completed)]))
  {
    StartInv(p.y);
    PortRunInv(p, es);
  }

  // ----- a rate change in the middle of a chunk -----

  lemma RunStep(p: Port, e: PortEvent, es: seq<PortEvent>)
    requires InBounds(p) && PortAllowed(p, e) && PortRunAllowed(PortStep(p, e), es)
    ensures PortRunAllowed(p, [e] + es) && PortRun(p, [e] + es) == PortRun(PortStep(p, e), es)
  {
    assert ([e] + es)[1..] == es;
  }

  /** A rate change, the next packet prepared and lost, and then an acknowledgement. */
  function ChangeUnderway(): seq<PortEvent> {
    [Reconfigure] + ([TxDone(false)] + ([TxDone(false)] + ([RcPacket] + [])))
  }

  lemma ChangeRuns(p: Port, p1: Port, p2: Port, p3: Port)
    requires InBounds(p) && p1 == PortStep(p, Reconfigure)
    requires InBounds(p1) && p2 == PortStep(p1, TxDone(false))
    requires InBounds(p2) && p3 == PortStep(p2, TxDone(false)) && InBounds(p3)
    ensures PortRunAllowed(p, ChangeUnderway()) && PortRun(p, ChangeUnderway()) == PortStep(p3, RcPacket)
  {
    RunStep(p3, RcPacket, []);
    RunStep(p2, TxDone(false), [RcPacket] + []);
    RunStep(p1, TxDone(false), [TxDone(false)] + ([RcPacket] + []));
    RunStep(p, Reconfigure, [TxDone(false)] + ([TxDone(false)] + ([RcPacket] + [])));
  }

  /** The driver after such a change, as the acknowledgement finds it. */
  lemma ChangedPort(p: Port)
    requires PortInv(p) && p.queued.Some? && p.y.s.phase.Sending?
    ensures InBounds(PortStep(p, Reconfigure)) && PortRunAllowed(p, ChangeUnderway())
    ensures PortRun(p, ChangeUnderway()) == AfterConfirm(Rearmed(p))
  {
    var p1 := PortStep(p, Reconfigure);
    var p2 := PortStep(p1, TxDone(false));
    ChangeRuns(p, p1, p2, PortStep(p2, TxDone(false)));
  }

  function Rearmed(p: Port): Port
    requires InBounds(p)
  {
    var q := Prepare(p.(queued := None, slot := None, armed := false));
    q.(armed := true)
  }

  lemma PreparingKeepsStep(p: Port)
    requires InBounds(p) && p.y.chunk.None? && p.y.s.currentPackage != 1 && !p.y.s.phase.SendPending?
    requires p.y.r.confirm != p.y.s.expected
    ensures var z := Prepare(p).y;
            InStepAfter(z.s, z.r, z.chunk, Done(z)) <==> InStepAfter(p.y.s, p.y.r, None, Done(p.y))
  {
  }

  /** A rate change while the receiver has the chunk and its acknowledgement is under way:
      the ends are in step afterwards exactly when it kept the bytes. So the condition of
      `DriverIsExactlyOnce` asks for no more than that. */
  lemma ReconfigureKeepsStep(p: Port)
    requires PortInv(p) && p.queued.Some? && p.y.s.phase.Sending? && p.y.r.confirm == p.y.s.expected
    ensures PortRunAllowed(p, ChangeUnderway())
    ensures var z := PortRun(p, ChangeUnderway()).y;
            InStepAfter(z.s, z.r, z.chunk, Done(z)) <==> BytesKept(p, Reconfigure)
  {
    ChangedPort(p);
    PreparedChunk(p);
    AfterTaken(p, Rearmed(p));
    ResentChunkKeepsStep(p.y.s, p.y.r, p.queued.value.size, NextSize(p), Done(p.y));
  }

  lemma PreparedChunk(p: Port)
    requires PortInv(p) && p.queued.Some? && p.y.s.phase.Sending?
    ensures LinkInv(p.y.s, p.y.r, Some(p.queued.value.size), Done(p.y)) && p.y.s.currentPackage >= 1
  {
  }

  lemma TakenIsConfirmed(s: SenderState, b: uint8)
    requires s.currentOffset <= |s.data| && s.phase.Sending? && 1 <= s.currentPackage
    ensures var s' := Confirm(GetPayload(s, b).0, s.expected);
            && s'.expected == !s.expected && s'.currentPackage != s.currentPackage
                && s'.currentPackage != 1 && !s'.phase.SendPending?
            && s'.currentOffset <= |s'.data|
  {
  }

  lemma AfterTaken(p: Port, q: Port)
    requires InBounds(p) && q == Rearmed(p) && p.y.s.phase.Sending? && p.y.r.confirm == p.y.s.expected
    requires 1 <= p.y.s.currentPackage
    ensures var s' := Confirm(GetPayload(p.y.s, NextSize(p)).0, p.y.r.confirm);
            var z := AfterConfirm(q).y;
            InStepAfter(z.s, z.r, z.chunk, Done(z)) <==> InStepAfter(s', p.y.r, None, Done(p.y))
  {
    TakenIsConfirmed(p.y.s, NextSize(p));
    PreparingKeepsStep(q.(y := Step(q.y, Acknowledge)));
  }

  // ----- what that costs: a run in which a corrupted message is finished -----

  lemma FirstChunkTaken(p: Port, m: Message)
    requires PortStart(p) && p.nextIsLink && DATA_PAYLOAD < |m| <= |p.y.r.data|
    ensures InBounds(p) && InBounds(PortStep(p, Poll(m)))
    ensures var q := PortStep(PortStep(p, Poll(m)), TxDone(true));
            && PortInv(q) && q.queued.Some? && q.y.s.phase.Sending?
                && q.y.s.currentPackage == 1 && q.y.s.currentOffset == 0
            && q.y.s.data == m && q.y.submitted == [m] && q.y.completed == [] && NextSize(q) == DATA_PAYLOAD
            && q.y.r.confirm == q.y.s.expected && q.y.s.maxPackageIndex >= 2
            && AtChunk(q.y.r, m, 2, LINK_STATS_PAYLOAD) && |m| <= |q.y.r.data|
  {
    StartInv(p.y);
    PollInv(p, m);
    var p1 := PortStep(p, Poll(m));
    assert p1.slot.value.packet == Packet(1, m[0..LINK_STATS_PAYLOAD]);
    TransmissionInv(p1, true);
    assert p1.y.s.phase.Sending?;
    AcceptAdvances(p.y.r, m[0..LINK_STATS_PAYLOAD], m, 1, LINK_STATS_PAYLOAD);
  }

  /** The sender goes on after ten bytes; the receiver still stands at six. */
  lemma LaterChunkPrepared(p: Port, m: Message)
    requires PortInv(p) && p.queued.Some? && p.y.s.phase.Sending?
        && p.y.s.currentPackage == 1 && p.y.s.currentOffset == 0
    requires p.y.s.data == m && DATA_PAYLOAD < |m| <= DATA_PAYLOAD + LINK_STATS_PAYLOAD && NextSize(p) == DATA_PAYLOAD
    requires p.y.r.confirm == p.y.s.expected
    ensures var q := AfterConfirm(Rearmed(p));
            && InBounds(q) && q.slot.Some? && q.slot.value.packet.index == 0
            && |q.slot.value.packet.payload| >= 1 && q.slot.value.packet.payload[0] == m[DATA_PAYLOAD]
            && q.y == p.y.(s := q.y.s, chunk := q.y.chunk)
  {
    ConfirmedAtTen(p.y.s, m);
    var s' := Confirm(GetPayload(p.y.s, DATA_PAYLOAD).0, p.y.s.expected);
    LastChunk(s', m, LINK_STATS_PAYLOAD);
    LastChunk(s', m, DATA_PAYLOAD);
  }

  lemma ConfirmedAtTen(s: SenderState, m: Message)
    requires s.phase.Sending? && s.currentPackage == 1 && s.currentOffset == 0 && s.data == m && DATA_PAYLOAD < |m|
    ensures var s' := Confirm(GetPayload(s, DATA_PAYLOAD).0, s.expected);
            s'.currentOffset == DATA_PAYLOAD && s'.currentPackage == 2 && s'.phase.Sending? && s'.data == m
  {
  }

  lemma LastChunk(s: SenderState, m: Message, n: uint8)
    requires s.phase.Sending? && s.currentPackage == 2 && s.currentOffset == DATA_PAYLOAD && s.data == m
    requires DATA_PAYLOAD < |m| <= DATA_PAYLOAD + n
    ensures var p := GetPayload(s, n).1; p.index == 0 && |p.payload| == n && p.payload[0] == m[DATA_PAYLOAD]
  {
  }

  function LosingRun(m: Message): seq<PortEvent> {
    [Poll(m)] + ([TxDone(true)] + (ChangeUnderway() + [TxDone(true)]))
  }

  lemma {:induction false} RunThen(p: Port, es: seq<PortEvent>, fs: seq<PortEvent>)
    requires PortRunAllowed(p, es) && PortRunAllowed(PortRun(p, es), fs)
    ensures PortRunAllowed(p, es + fs) && PortRun(p, es + fs) == PortRun(PortRun(p, es), fs)
    decreases |es|
  {
    if es == [] {
      assert es + fs == fs;
    } else {
      RunThen(PortStep(p, es[0]), es[1..], fs);
      RunStep(p, es[0], es[1..] + fs);
      assert [es[0]] + (es[1..] + fs) == es + fs;
    }
  }

  /** From reset: the first six bytes of a message of 11 to 16 arrive, a rate change drops
      the prepared packet, the acknowledgement then counts the ten bytes offered since,
      and the closing packet is written four bytes too early. The receiver finishes the
      message and hands out a buffer that does not hold it. */
  lemma ReconfigureCorruptsMessage(p: Port, m: Message)
    requires PortStart(p) && p.nextIsLink
    requires DATA_PAYLOAD < |m| <= DATA_PAYLOAD + LINK_STATS_PAYLOAD && |m| <= |p.y.r.data|
    requires m[LINK_STATS_PAYLOAD] != m[DATA_PAYLOAD]
    ensures PortRunAllowed(p, LosingRun(m))
    ensures var z := PortRun(p, LosingRun(m)).y;
            z.r.finished && z.submitted == [m] && z.completed == [0] && !Holds(z.r.data, m)
  {
    FirstChunkTaken(p, m);
    var p1 := PortStep(p, Poll(m));
    var p2 := PortStep(p1, TxDone(true));
    ChangedPort(p2);
    LaterChunkPrepared(p2, m);
    var q := AfterConfirm(Rearmed(p2));
    ClosingCorrupts(q, m);
    RunStep(q, TxDone(true), []);
    assert [TxDone(true)] + [] == [TxDone(true)];
    RunThen(p2, ChangeUnderway(), [TxDone(true)]);
    RunStep(p1, TxDone(true), ChangeUnderway() + [TxDone(true)]);
    RunStep(p, Poll(m), [TxDone(true)] + (ChangeUnderway() + [TxDone(true)]));
  }

  lemma ClosingCorrupts(q: Port, m: Message)
    requires InBounds(q) && q.slot.Some? && q.slot.value.packet.index == 0 && q.y.s.maxPackageIndex >= 2
    requires q.y.r.maxPackageIndex >= 2 && LINK_STATS_PAYLOAD < |m| <= |q.y.r.data| && DATA_PAYLOAD < |m|
    requires AtChunk(q.y.r, m, 2, LINK_STATS_PAYLOAD) && q.y.submitted == [m] && q.y.completed == []
    requires var bytes := q.slot.value.packet.payload;
        |bytes| >= 1 && bytes[0] == m[DATA_PAYLOAD] != m[LINK_STATS_PAYLOAD]
    ensures InBounds(PortStep(q, TxDone(true)))
    ensures var z := PortStep(q, TxDone(true)).y;
            z.r.finished && z.submitted == [m] && z.completed == [0] && !Holds(z.r.data, m)
  {
    var bytes := q.slot.value.packet.payload;
    var r := Hear(q.y.r, q.slot.value.packet);
    assert r == AcceptChunk(q.y.r.(finished := true), bytes);
    assert r.data[..|m|][LINK_STATS_PAYLOAD] == bytes[0];
  }
}
