/** The timed protocol: both ends, the packets on the air, and time.
    `t` is true time in milliseconds; each end reads its own 32-bit clock, a wrapped
    shift of it. A packet reaches the receiver within `delay` of being queued or not at
    all, packets keep their order, and the receiver's loop runs at least every `period`. */
module RateChangeRun {
  import opened Widths
  import opened RateSwitch

  const CLOCK_HALF := 0x8000_0000

  datatype OnAir = OnAir(sync: Sync, rate: uint8, queuedAt: nat)

  /** `commitTime` is the true time of the committed instant while a commit is active,
      `heard` whether the receiver took a COMMIT of it, `due` the true time its timer then
      stands for, `switched` whether the transmitter has moved. */
  datatype World = World(
    t: nat,
    tx: Tx,
    rx: Rx,
    air: seq<OnAir>,
    txOffset: nat,
    rxOffset: nat,
    delay: nat,
    period: nat,
    lastLoop: nat,
    commitTime: int,
    heard: bool,
    due: int,
    switched: bool)
  {
    function TxNow(): uint32 { Wrap32(t + txOffset) }
    function RxNow(): uint32 { Wrap32(t + rxOffset) }
  }

  datatype Event =
    | Tick
    | UserChange(rate: uint8, tlm: uint8)
    | Service(slot: Slot, effective: Ratio, accepted: bool)
    | RadioDone
    | Poll
    | Arrive
    | Lose
    | Connect
    | Loop

  /** The timing assumptions, and that the change under way is not cancelled. */
  predicate Allowed(w: World, e: Event) {
    && w.tx.Valid()
    && match e
       case Tick =>
         && (forall p :: p in w.air ==> w.t < p.queuedAt + w.delay)
         && w.t < w.lastLoop + w.period
         && (w.tx.commitActive ==> w.t + 1 < w.commitTime + CLOCK_HALF - 1)
       case UserChange(rate, tlm) => !w.tx.commitActive && !w.switched && rate < RATE_MAX && tlm <= TLM_RATIO_DISARMED
       case Service(slot, _, _) => !w.switched && (slot.SpamSlot? ==> w.tx.syncSpam > 0)
       case Poll => !w.switched
       case Arrive => w.air != []
       case Lose => w.air != []
       case _ => true
  }

  function Step(w: World, e: Event): World
    requires Allowed(w, e)
  {
    match e
    case Tick => w.(t := w.t + 1)
    case UserChange(rate, tlm) => w.(tx := Configure(w.tx, rate, tlm))
    case Service(slot, effective, accepted) =>
      var (tx, queued) := Transmit(w.tx, w.TxNow(), slot, effective, accepted);
      w.(tx := tx,
         air := if queued.SyncQueued? then w.air + [OnAir(queued.sync, w.tx.rate, w.t)] else w.air)
    case RadioDone => w.(tx := w.tx.(pending := false))
    case Poll =>
      var tx := CheckConfigChange(w.tx, w.TxNow());
      w.(tx := tx,
         commitTime := if tx.commitActive && !w.tx.commitActive then w.t + COMMIT_WINDOW_MS else w.commitTime,
         heard := if tx.commitActive && !w.tx.commitActive then false else w.heard,
         switched := tx.rate != w.tx.rate)
    case Arrive =>
      var p := w.air[0];
      if p.rate == w.rx.rate then
        w.(rx := ReceiveSync(w.rx, w.RxNow(), p.sync), air := w.air[1..],
           heard := w.heard || (p.sync.phase.Commit? && p.sync.rateIndex != w.rx.rate),
           due := if p.sync.phase.Commit? then w.t + p.sync.delay * TICK_MS else w.due)
      else w.(air := w.air[1..])
    case Lose => w.(air := w.air[1..])
    case Connect => w.(rx := w.rx.(connected := true))
    case Loop => w.(rx := RxLoop(w.rx, w.RxNow()), lastLoop := w.t)
  }

  /** Packet delay and loop period together stay inside the guard time. */
  predicate Timely(w: World) {
    w.period >= 1 && w.delay + w.period + TICK_MS - 1 < TX_GUARD_MS
  }

  predicate Start(w: World) {
    && Timely(w) && w.tx.Valid() && w.tx.rate == w.rx.rate == w.rx.nextRate
    && !w.tx.commitActive && !w.rx.commitPending && !w.switched && !w.heard && w.air == []
    && w.lastLoop <= w.t <= w.lastLoop + w.period
  }

  /** A COMMIT still on the air: queued before the committed instant, and its countdown
      reaches that instant from its queueing, at most nine milliseconds late. */
  predicate GoodCommit(w: World, p: OnAir)
    requires w.tx.Valid()
  {
    && p.sync.phase.Commit? && p.sync.rateIndex == w.tx.configRate && p.sync.newTlmRatio == w.tx.AnnouncedRatio()
    && p.queuedAt < w.commitTime <= p.queuedAt + p.sync.delay * TICK_MS <= w.commitTime + TICK_MS - 1
  }

  predicate OldPacket(w: World, p: OnAir) {
    !p.sync.phase.Commit? && (p.sync.phase.Plain? <==> p.sync.rateIndex == w.tx.rate)
  }

  predicate AirInv(w: World)
    requires w.tx.Valid()
  {
    && (forall p :: p in w.air ==> p.queuedAt <= w.t <= p.queuedAt + w.delay && p.rate == w.tx.rate)
    && (forall p :: p in w.air ==> OldPacket(w, p) || (w.tx.commitActive && GoodCommit(w, p)))
    && (forall i, j :: 0 <= i < j < |w.air| ==> w.air[i].sync.phase.Commit? ==> w.air[j].sync.phase.Commit?)
  }

  /** The receiver's timer is set for true time `due`, and no loop has run since then. */
  predicate Waiting(w: World)
    requires w.tx.Valid()
  {
    && w.rx.rate == w.rx.nextRate == w.tx.rate
    && w.rx.commitPending && w.rx.commitTarget == w.tx.configRate && w.rx.commitRatio == w.tx.AnnouncedRatio()
    && w.rx.commitAt == Wrap32(w.due + w.rxOffset)
    && w.commitTime <= w.due <= w.commitTime + w.delay + TICK_MS - 1
    && w.lastLoop < w.due <= w.t + 2550
  }

  predicate Moved(w: World)
    requires w.tx.Valid()
  {
    && w.rx.rate == w.rx.nextRate == w.tx.configRate && !w.rx.commitPending
    && w.rx.denominator == Denominator(w.tx.AnnouncedRatio())
    && w.commitTime <= w.t
  }

  predicate CommitInv(w: World)
    requires w.tx.Valid()
  {
    && w.tx.configRate != w.tx.rate && w.tx.modified && w.tx.syncSpam == 0
    && w.tx.commitAt == Wrap32(w.commitTime + w.txOffset)
    && w.commitTime - COMMIT_WINDOW_MS <= w.t < w.commitTime + CLOCK_HALF - 1
    && if !w.heard then w.rx.rate == w.rx.nextRate == w.tx.rate && !w.rx.commitPending
       else (forall p :: p in w.air ==> p.sync.phase.Commit?) && (Moved(w) || Waiting(w))
  }

  predicate Inv(w: World) {
    && Timely(w) && w.tx.Valid() && w.lastLoop <= w.t <= w.lastLoop + w.period
    && (!w.switched ==>
          && AirInv(w)
          && if w.tx.commitActive then CommitInv(w)
             else w.rx.rate == w.rx.nextRate == w.tx.rate && !w.rx.commitPending && !w.heard)
  }

  /** What the transmitter queues while a commit is active. */
  lemma CommitTransmit(tx: Tx, now: uint32, slot: Slot, effective: Ratio, accepted: bool)
    requires tx.Valid() && tx.commitActive && tx.syncSpam == 0 && tx.configRate != tx.rate && slot != SpamSlot
    ensures var (tx', queued) := Transmit(tx, now, slot, effective, accepted);
            && tx' == tx.(pending := tx'.pending) && !queued.DataQueued?
            && (queued.SyncQueued? ==>
                  && !Reached(now, tx.commitAt)
                  && queued.sync == Sync(tx.configRate, tx.AnnouncedRatio(),
                      Commit, CommitTicks(Wrap32(tx.commitAt - now))))
  {
  }

  /** The wrapped clock tells the transmitter the true time to the committed instant. */
  lemma CommitClock(w: World)
    requires w.tx.Valid() && w.tx.commitActive && CommitInv(w)
    ensures Reached(w.TxNow(), w.tx.commitAt) <==> w.t >= w.commitTime
    ensures w.t < w.commitTime ==> Wrap32(w.tx.commitAt - w.TxNow()) == w.commitTime - w.t <= COMMIT_WINDOW_MS
  {
    ReachedMeansPast(w.t, w.commitTime, w.txOffset);
    WrapDifference(w.commitTime + w.txOffset, w.t + w.txOffset);
  }

  /** A COMMIT is queued only before the committed instant, with a countdown that ends at
      most nine milliseconds after it; from that instant on nothing is queued. */
  lemma CommitService(w: World, slot: Slot, effective: Ratio, accepted: bool)
    requires Inv(w) && w.tx.commitActive && Allowed(w, Service(slot, effective, accepted))
    ensures var w' := Step(w, Service(slot, effective, accepted));
            && w' == w.(tx := w.tx.(pending := w'.tx.pending), air := w'.air)
            && (w'.air == w.air
                || (w'.air == w.air + [w'.air[|w.air|]] && GoodCommit(w, w'.air[|w.air|])
                    && w'.air[|w.air|].queuedAt == w.t && w'.air[|w.air|].rate == w.tx.rate))
            && (w.t >= w.commitTime ==> w'.air == w.air)
  {
    CommitTransmit(w.tx, w.TxNow(), slot, effective, accepted);
    CommitClock(w);
  }

  /** Before the commit, what goes out announces either the present rate or a preparation. */
  lemma QuietService(w: World, slot: Slot, effective: Ratio, accepted: bool)
    requires Inv(w) && !w.tx.commitActive && Allowed(w, Service(slot, effective, accepted))
    ensures var w' := Step(w, Service(slot, effective, accepted));
            && w' == w.(tx := w.tx.(pending := w'.tx.pending, syncSpam := w'.tx.syncSpam), air := w'.air)
            && (w'.air == w.air
                || (w'.air == w.air + [w'.air[|w.air|]] && OldPacket(w, w'.air[|w.air|])
                    && w'.air[|w.air|].queuedAt == w.t && w'.air[|w.air|].rate == w.tx.rate))
  {
  }

  lemma AirGrows(w: World, w': World, p: OnAir)
    requires w.tx.Valid() && AirInv(w) && w'.air == w.air + [p] && w.delay >= 0
    requires w' == w.(tx := w.tx.(pending := w'.tx.pending, syncSpam := w'.tx.syncSpam), air := w'.air)
    requires p.queuedAt == w.t && p.rate == w.tx.rate
    requires if w.tx.commitActive then GoodCommit(w, p) else OldPacket(w, p)
    ensures w'.tx.Valid() && AirInv(w')
  {
    forall q | q in w'.air
      ensures q.queuedAt <= w.t <= q.queuedAt + w.delay && q.rate == w.tx.rate
      ensures OldPacket(w', q) || (w'.tx.commitActive && GoodCommit(w', q))
    {
      assert q in w.air || q == p;
    }
  }

  lemma ServiceInv(w: World, slot: Slot, effective: Ratio, accepted: bool)
    requires Inv(w) && Allowed(w, Service(slot, effective, accepted))
    ensures Inv(Step(w, Service(slot, effective, accepted)))
  {
    var w' := Step(w, Service(slot, effective, accepted));
    if w.tx.commitActive {
      CommitService(w, slot, effective, accepted);
    } else if !w.switched {
      QuietService(w, slot, effective, accepted);
    }
    if !w.switched && w'.air != w.air {
      AirGrows(w, w', w'.air[|w.air|]);
    }
  }

  lemma TailAir(w: World)
    requires w.tx.Valid() && AirInv(w) && w.air != []
    ensures w.air[0] in w.air
    ensures forall p :: p in w.air[1..] ==> p in w.air
    ensures AirInv(w.(air := w.air[1..]))
  {
    var w' := w.(air := w.air[1..]);
    forall p | p in w'.air
      ensures p in w.air && (OldPacket(w', p) || (w'.tx.commitActive && GoodCommit(w', p)))
    {
      assert p in w.air;
    }
  }

  lemma PollInv(w: World)
    requires Inv(w) && Allowed(w, Poll)
    ensures Inv(Step(w, Poll))
  {
    if w.tx.commitActive {
      WrapSum(w.commitTime + w.txOffset, TX_GUARD_MS);
      ReachedMeansPast(w.t, w.commitTime + TX_GUARD_MS, w.txOffset);
    } else {
      WrapSum(w.t + w.txOffset, COMMIT_WINDOW_MS);
    }
  }

  /** A COMMIT taken by the receiver sets its timer for the committed instant or up to
      packet delay plus nine milliseconds later. */
  lemma CommitArrives(w: World)
    requires Inv(w) && !w.switched && w.air != [] && w.air[0].sync.phase.Commit? && w.rx.rate == w.tx.rate
    ensures Inv(Step(w, Arrive)) && Waiting(Step(w, Arrive))
  {
    TailAir(w);
    var p := w.air[0];
    WrapSum(w.t + w.rxOffset, p.sync.delay * TICK_MS);
    var w' := Step(w, Arrive);
    assert Waiting(w');
    assert forall q :: q in w'.air ==> q in w.air && GoodCommit(w, q) ==> GoodCommit(w', q);
    assert forall i :: 0 <= i < |w'.air| ==> w'.air[i] == w.air[i + 1];
  }

  lemma OtherArrives(w: World)
    requires Inv(w) && !w.switched && w.air != [] && (w.air[0].sync.phase.Commit? ==> w.rx.rate != w.tx.rate)
    ensures Inv(Step(w, Arrive)) && Step(w, Arrive).rx.rate == w.rx.rate
  {
    TailAir(w);
  }

  lemma ArriveInv(w: World)
    requires Inv(w) && Allowed(w, Arrive)
    ensures Inv(Step(w, Arrive))
  {
    if !w.switched {
      if w.air[0].sync.phase.Commit? && w.rx.rate == w.tx.rate {
        CommitArrives(w);
      } else {
        OtherArrives(w);
      }
    }
  }

  lemma LoseInv(w: World)
    requires Inv(w) && Allowed(w, Lose)
    ensures Inv(Step(w, Lose))
  {
    if !w.switched {
      TailAir(w);
    }
  }

  lemma LoopInv(w: World)
    requires Inv(w)
    ensures Inv(Step(w, Loop))
  {
    if !w.switched && w.tx.commitActive && w.heard && Waiting(w) {
      ReachedMeansPast(w.t, w.due, w.rxOffset);
    }
  }

  lemma TickInv(w: World)
    requires Inv(w) && Allowed(w, Tick)
    ensures Inv(Step(w, Tick))
  {
  }

  lemma UserChangeInv(w: World, rate: uint8, tlm: uint8)
    requires Inv(w) && Allowed(w, UserChange(rate, tlm))
    ensures Inv(Step(w, UserChange(rate, tlm)))
  {
  }

  lemma StepInv(w: World, e: Event)
    requires Inv(w) && Allowed(w, e)
    ensures Inv(Step(w, e))
  {
    match e
    case Tick => TickInv(w);
    case UserChange(rate, tlm) => UserChangeInv(w, rate, tlm);
    case Service(slot, effective, accepted) => ServiceInv(w, slot, effective, accepted);
    case RadioDone =>
    case Poll => PollInv(w);
    case Arrive => ArriveInv(w);
    case Lose => LoseInv(w);
    case Connect =>
    case Loop => LoopInv(w);
  }

  predicate AllowedRun(w: World, es: seq<Event>)
    decreases |es|
  {
    es == [] || (Allowed(w, es[0]) && AllowedRun(Step(w, es[0]), es[1..]))
  }

  function Run(w: World, es: seq<Event>): World
    requires AllowedRun(w, es)
    decreases |es|
  {
    if es == [] then w else Run(Step(w, es[0]), es[1..])
  }

  lemma {:induction false} RunInv(w: World, es: seq<Event>)
    requires Inv(w) && AllowedRun(w, es)
    ensures Inv(Run(w, es))
    decreases |es|
  {
    if es == [] {
    } else {
      StepInv(w, es[0]);
      RunInv(Step(w, es[0]), es[1..]);
    }
  }

  // ----- what every uncancelled run from Start promises -----

  /** The receiver changes its rate only in its loop, after it heard a COMMIT, and never
      before the committed instant. */
  predicate MoveIsInTime(w: World, e: Event)
    requires Allowed(w, e)
  {
    !w.switched && Step(w, e).rx.rate != w.rx.rate ==>
      && e == Loop && w.tx.commitActive && w.heard
      && w.commitTime <= w.t <= w.commitTime + w.delay + TICK_MS - 1 + w.period
      && Step(w, e).rx.rate == w.tx.configRate
  }

  lemma MovesInTime(w: World, e: Event)
    requires Inv(w) && Allowed(w, e)
    ensures MoveIsInTime(w, e)
  {
    if !w.switched && Step(w, e).rx.rate != w.rx.rate {
      assert e == Loop;
      ReachedMeansPast(w.t, w.due, w.rxOffset);
    }
  }

  /** Once packet delay, nine milliseconds and one loop have passed since the committed
      instant, a receiver that heard a COMMIT has applied it. */
  predicate AppliedByDeadline(w: World)
    requires w.tx.Valid()
  {
    !w.switched && w.tx.commitActive && w.heard && w.t > w.commitTime + w.delay + TICK_MS - 1 + w.period ==>
      && w.rx.rate == w.rx.nextRate == w.tx.configRate && !w.rx.commitPending
      && w.rx.denominator == Denominator(w.tx.AnnouncedRatio())
  }

  /** The receiver moves neither too early nor too late. */
  lemma ReceiverMovesInTime(w0: World, es: seq<Event>, e: Event)
    requires Start(w0) && AllowedRun(w0, es) && Allowed(Run(w0, es), e)
    ensures MoveIsInTime(Run(w0, es), e) && AppliedByDeadline(Run(w0, es))
  {
    RunInv(w0, es);
    MovesInTime(Run(w0, es), e);
  }

  lemma QueuedWhileCommitted(w: World, slot: Slot, effective: Ratio, accepted: bool)
    requires Inv(w) && Allowed(w, Service(slot, effective, accepted))
    ensures var queued := Transmit(w.tx, w.TxNow(), slot, effective, accepted).1;
            w.tx.commitActive ==>
              && (queued == NothingQueued || (queued.SyncQueued? && queued.sync.phase.Commit?))
              && (w.t >= w.commitTime ==> queued == NothingQueued)
  {
    if w.tx.commitActive {
      CommitTransmit(w.tx, w.TxNow(), slot, effective, accepted);
      CommitClock(w);
    }
  }

  /** While a commit is active every queued packet is a COMMIT queued before the
      committed instant; from that instant the transmitter stays silent. */
  lemma OnlyCommitsThenSilence(w0: World, es: seq<Event>, slot: Slot, effective: Ratio, accepted: bool)
    requires Start(w0) && AllowedRun(w0, es) && Allowed(Run(w0, es), Service(slot, effective, accepted))
    requires Run(w0, es).tx.commitActive
    ensures var w := Run(w0, es);
            var queued := Transmit(w.tx, w.TxNow(), slot, effective, accepted).1;
            && (queued == NothingQueued || (queued.SyncQueued? && queued.sync.phase.Commit?))
            && (w.t >= w.commitTime ==> queued == NothingQueued)
  {
    RunInv(w0, es);
    QueuedWhileCommitted(Run(w0, es), slot, effective, accepted);
  }

  /** The transmitter switches to the configured rate at its first look, with the radio
      free, at or past the guard time after the committed instant, and at no other. By then
      a receiver that heard any COMMIT has moved: both are on the new rate with the same
      telemetry denominator. One that heard none is still on the old rate. */
  predicate SwitchAgrees(w: World)
    requires Allowed(w, Poll)
  {
    var w' := Step(w, Poll);
    && (w'.tx.rate != w.tx.rate <==>
          w.tx.commitActive && !w.tx.pending && w.t >= w.commitTime + TX_GUARD_MS)
    && (w'.tx.rate != w.tx.rate ==>
      && w'.tx.rate == w.tx.configRate
      && (w.heard <==> w'.rx.rate == w'.tx.rate)
      && (w.heard ==> w'.rx.denominator == w'.tx.denominator && w'.rx.nextRate == w'.rx.rate && !w'.rx.commitPending)
      && (!w.heard ==> w'.rx.rate == w.tx.rate))
  }

  lemma AgreeWhenSwitching(w: World)
    requires Inv(w) && Allowed(w, Poll)
    ensures SwitchAgrees(w)
  {
    if w.tx.commitActive {
      WrapSum(w.commitTime + w.txOffset, TX_GUARD_MS);
      ReachedMeansPast(w.t, w.commitTime + TX_GUARD_MS, w.txOffset);
    }
  }

  lemma BothEndsAgree(w0: World, es: seq<Event>)
    requires Start(w0) && AllowedRun(w0, es) && Allowed(Run(w0, es), Poll)
    ensures SwitchAgrees(Run(w0, es))
  {
    RunInv(w0, es);
    AgreeWhenSwitching(Run(w0, es));
  }
}
