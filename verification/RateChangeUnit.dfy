/** The two main programs of `RateSwitch` against each other. `world` adds what neither
    knows: time, and the packets on the air. Every call keeps the timed invariant of
    `RateChangeRun`, so its theorems are said here about the objects. */
module RateChangeUnit {
  import opened Widths
  import opened RateSwitch
  import opened RateChangeRun

  class RateLink {
    const tx: TxMain
    const rx: RxMain
    ghost var world: World

    ghost predicate Valid()
      reads this, tx, rx
    {
      world.tx == tx.View() && world.rx == rx.View() && Inv(world)
    }

    /** Both ends on one rate, each with a clock of its own. */
    constructor (rate: uint8, tlm: uint8, ghost txOffset: nat, ghost rxOffset: nat, ghost delay: nat, ghost period: nat)
      requires rate < RATE_MAX && tlm <= TLM_RATIO_DISARMED
      requires period >= 1 && delay + period + TICK_MS - 1 < TX_GUARD_MS
      ensures Valid() && Start(world) && fresh(tx) && fresh(rx)
    {
      tx := new TxMain(rate, tlm);
      rx := new RxMain(rate);
      new;
      world := World(0, tx.View(), rx.View(), [], txOffset, rxOffset, delay, period, 0, 0, false, 0, false);
    }

    /** What neither program does: a millisecond passes, or a packet is lost. */
    method Elsewhere(ghost e: Event)
      requires Valid() && Allowed(world, e) && (e.Tick? || e.Lose?)
      modifies this`world
      ensures Valid() && world == Step(old(world), e)
    {
      StepInv(world, e);
      world := Step(world, e);
    }

    method RadioFree()
      requires Valid() && Allowed(world, RadioDone)
      modifies this`world, tx
      ensures Valid() && world == Step(old(world), RadioDone)
    {
      StepInv(world, RadioDone);
      tx.txPayloadPending := false;
      world := Step(world, RadioDone);
    }

    method Connected()
      requires Valid() && Allowed(world, Connect)
      modifies this`world, rx
      ensures Valid() && world == Step(old(world), Connect)
    {
      StepInv(world, Connect);
      rx.connected := true;
      world := Step(world, Connect);
    }

    method ChangeConfig(rate: uint8, tlm: uint8)
      requires Valid() && Allowed(world, UserChange(rate, tlm))
      modifies this`world, tx
      ensures Valid() && world == Step(old(world), UserChange(rate, tlm))
    {
      UserChangeInv(world, rate, tlm);
      tx.ChangeConfig(rate, tlm);
      world := Step(world, UserChange(rate, tlm));
    }

    /** While a commit is active only COMMITs are queued, and nothing from its instant on. */
    method Transmit(now: uint32, slot: Slot, effective: Ratio, accepted: bool) returns (queued: Queued)
      requires Valid() && Allowed(world, Service(slot, effective, accepted)) && now == world.TxNow()
      modifies this`world, tx
      ensures Valid() && world == Step(old(world), Service(slot, effective, accepted))
      ensures old(tx.rateCommitActive) ==> queued == NothingQueued || (queued.SyncQueued? && queued.sync.phase.Commit?)
      ensures old(tx.rateCommitActive) && world.t >= world.commitTime ==> queued == NothingQueued
    {
      ServiceInv(world, slot, effective, accepted);
      QueuedWhileCommitted(world, slot, effective, accepted);
      queued := tx.SendRCdataToRF(now, slot, effective, accepted);
      world := Step(world, Service(slot, effective, accepted));
    }

    /** The transmitter leaves its rate only when a receiver that heard a COMMIT has moved
        already: from then on both have one rate and one telemetry denominator. */
    method CheckConfigChange(now: uint32)
      requires Valid() && Allowed(world, Poll) && now == world.TxNow()
      modifies this`world, tx
      ensures Valid() && world == Step(old(world), Poll)
      ensures tx.rate != old(tx.rate) <==>
        old(tx.rateCommitActive && !tx.txPayloadPending && world.t >= world.commitTime + TX_GUARD_MS)
      ensures tx.rate != old(tx.rate) ==>
        && tx.rate == old(tx.configRate) && (world.heard <==> rx.rate == tx.rate)
        && (world.heard ==>
              && rx.currTlmDenom == tx.currTlmDenom
              && rx.nextAirRateIndex == rx.rate && !rx.rateCommitPending)
    {
      PollInv(world);
      AgreeWhenSwitching(world);
      tx.CheckConfigChangePending(now);
      world := Step(world, Poll);
    }

    /** A SYNC packet arrives; it is heard only on the receiver's rate. */
    method Receive(now: uint32, sync: Sync, rate: uint8)
      requires Valid() && Allowed(world, Arrive) && now == world.RxNow()
      requires world.air[0].sync == sync && world.air[0].rate == rate
      modifies this`world, rx
      ensures Valid() && world == Step(old(world), Arrive)
      ensures !world.switched ==> rx.rate == old(rx.rate)
    {
      ArriveInv(world);
      if rate == rx.rate {
        rx.ProcessSync(now, sync);
      }
      world := Step(world, Arrive);
    }

    /** The receiver leaves its rate only here, on time; and when the deadline is past it
        has left it. */
    method Loop(now: uint32)
      requires Valid() && Allowed(world, RateChangeRun.Event.Loop) && now == world.RxNow()
      modifies this`world, rx
      ensures Valid() && world == Step(old(world), RateChangeRun.Event.Loop)
      ensures !world.switched && rx.rate != old(rx.rate) ==>
        && world.heard && rx.rate == tx.configRate
        && world.commitTime <= world.t <= world.commitTime + world.delay + TICK_MS - 1 + world.period
      ensures AppliedByDeadline(world)
    {
      LoopInv(world);
      MovesInTime(world, RateChangeRun.Event.Loop);
      rx.Loop(now);
      world := Step(world, RateChangeRun.Event.Loop);
    }
  }
}
