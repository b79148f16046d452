/** The two-phase rate change as each end carries it out: the transmitter announces
    (PREPARE), commits to an instant (COMMIT, with the time left in ticks) and switches
    after a guard time; the receiver switches at the committed instant. */
module RateSwitch {
  import opened Widths

  const COMMIT_WINDOW_MS := 200
  const TX_GUARD_MS := 200
  const TICK_MS := 10
  const SYNC_SPAM_AMOUNT := 100
  const RATE_MAX := 8

  const TLM_RATIO_STD := 0
  const TLM_RATIO_NO_TLM := 1
  const TLM_RATIO_DISARMED := 9

  /** The three-bit ratio field: 0 is "no telemetry", 7 is 1:2. */
  type Ratio = r: int | 0 <= r <= 7

  /** Extension byte of the SYNC packet; 0 in packets of unextended peers. */
  datatype RatePhase = Plain | Prepare | Commit

  datatype Sync = Sync(rateIndex: uint8, newTlmRatio: Ratio, phase: RatePhase, delay: uint8)

  /** Countdown of a COMMIT: rounded up, so the receiver never switches early. */
  function CommitTicks(remainingMs: uint32): (ticks: uint8)
    ensures remainingMs <= 2550 ==> remainingMs <= ticks * TICK_MS <= remainingMs + TICK_MS - 1
    ensures 2550 < remainingMs < 0x1_0000_0000 - TICK_MS ==> ticks == 255
  {
    var ticks := Wrap32(remainingMs + TICK_MS - 1) / TICK_MS;
    if ticks > 255 then 255 else ticks
  }

  /** Suggested telemetry ratio of each air rate; indices past the table use its last row. */
  function SuggestedRatio(rate: uint8): uint8 {
    [8, 7, 6, 6, 5, 4, 3, 3][if rate >= RATE_MAX then RATE_MAX - 1 else rate]
  }

  function ConfiguredRatio(tlm: uint8, armed: bool, rate: uint8): uint8 {
    if tlm == TLM_RATIO_DISARMED then (if armed then TLM_RATIO_NO_TLM else SuggestedRatio(rate))
    else if tlm == TLM_RATIO_STD then SuggestedRatio(rate)
    else tlm
  }

  /** Telemetry denominator of an explicit ratio `TLM_RATIO_NO_TLM + r`. */
  function Denominator(r: Ratio): uint8
  {
    if r == 0 then 1 else [128, 64, 32, 16, 8, 4, 2][r - 1]
  }

  // ----- transmitter -----

  datatype Tx = Tx(
    rate: uint8,
    denominator: uint8,
    configRate: uint8,
    configTlm: uint8,
    armed: bool,
    modified: bool,
    syncSpam: uint32,
    commitActive: bool,
    commitAt: uint32,
    pending: bool)
  {
    predicate Valid() {
      rate < RATE_MAX && configRate < RATE_MAX && configTlm <= TLM_RATIO_DISARMED
    }

    /** `newTlmRatio` for a rate other than the current one: three bits above NO_TLM. */
    function AnnouncedRatio(): Ratio
      requires Valid()
    {
      ConfiguredRatio(configTlm, armed, configRate) - TLM_RATIO_NO_TLM
    }
  }

  /** The user interface sets rate and ratio, which marks a difference; while anything is
      marked, a burst of SYNC packets announces it and any commit under way is abandoned. */
  function Configure(tx: Tx, rate: uint8, tlm: uint8): Tx {
    if !tx.modified && rate == tx.configRate && tlm == tx.configTlm then tx
    else tx.(configRate := rate, configTlm := tlm, modified := true,
        commitActive := false, syncSpam := SYNC_SPAM_AMOUNT)
  }

  /** Ratio announced for the rate in use; `effective` is what the transmitter's boost
      and arming logic currently yields. */
  function GenerateSync(tx: Tx, now: uint32, effective: Ratio): (out: (Tx, Sync))
    requires tx.Valid()
  {
    var index := if tx.syncSpam > 0 || tx.commitActive then tx.configRate else tx.rate;
    var changes := index != tx.rate;
    var phase := if !changes then Plain else if tx.commitActive then Commit else Prepare;
    var remaining := if Reached(now, tx.commitAt) then 0 else Wrap32(tx.commitAt - now);
    (tx.(syncSpam := if tx.syncSpam > 0 then tx.syncSpam - 1 else 0),
     Sync(index, if changes then tx.AnnouncedRatio() else effective, phase,
          if phase.Commit? then CommitTicks(remaining) else 0))
  }

  datatype Queued = NothingQueued | SyncQueued(sync: Sync) | DataQueued

  /** What the schedule asks for when no commit is active. */
  datatype Slot = SpamSlot | RegularSlot | DataSlot

  /** One call of the transmit routine. While a commit is active only COMMIT syncs go out,
      and none from the committed instant on; otherwise the schedule decides. `accepted`
      is the radio driver's answer; a refused spam sync is not counted. */
  function Transmit(tx: Tx, now: uint32, slot: Slot, effective: Ratio, accepted: bool): (Tx, Queued)
    requires tx.Valid()
    requires slot.SpamSlot? ==> tx.syncSpam > 0
  {
    if tx.pending || (tx.commitActive && Reached(now, tx.commitAt)) then (tx, NothingQueued)
    else if tx.commitActive || !slot.DataSlot? then
      var (tx', sync) := GenerateSync(tx, now, effective);
      if accepted then (tx'.(pending := true), SyncQueued(sync))
      else (if tx.commitActive || slot.RegularSlot? then tx' else tx, NothingQueued)
    else if accepted then (tx.(pending := true), DataQueued)
    else (tx, NothingQueued)
  }

  /** The main loop's look at a modified configuration. */
  function CheckConfigChange(tx: Tx, now: uint32): Tx
    requires tx.Valid()
  {
    if !tx.modified || tx.syncSpam > 0 || tx.pending then tx
    else if tx.configRate != tx.rate && !tx.commitActive then
      tx.(commitActive := true, commitAt := Wrap32(now + COMMIT_WINDOW_MS))
    else if tx.configRate != tx.rate && !Reached(now, Wrap32(tx.commitAt + TX_GUARD_MS)) then tx
    else
      tx.(commitActive := false, modified := false, rate := tx.configRate,
          denominator := if tx.configRate != tx.rate then Denominator(tx.AnnouncedRatio()) else tx.denominator)
  }

  // ----- receiver -----

  datatype Rx = Rx(
    rate: uint8,
    nextRate: uint8,
    denominator: uint8,
    connected: bool,
    commitPending: bool,
    commitAt: uint32,
    commitTarget: uint8,
    commitRatio: Ratio)

  function ReceiveSync(rx: Rx, now: uint32, sync: Sync): Rx
  {
    if sync.rateIndex != rx.rate && !sync.phase.Plain? then
      if sync.phase.Commit? then
        rx.(commitPending := true, commitTarget := sync.rateIndex, commitRatio := sync.newTlmRatio,
            commitAt := Wrap32(now + sync.delay * TICK_MS))
      else rx.(commitPending := false)
    else
      rx.(commitPending := false, nextRate := sync.rateIndex, denominator := Denominator(sync.newTlmRatio))
  }

  /** Disconnect and move to the next rate. */
  function LoseConnection(rx: Rx): Rx {
    rx.(connected := false, commitPending := false, rate := rx.nextRate)
  }

  function RxLoop(rx: Rx, now: uint32): Rx
  {
    var rx1 :=
      if rx.commitPending && Reached(now, rx.commitAt) then
        LoseConnection(rx.(nextRate := rx.commitTarget, denominator := Denominator(rx.commitRatio)))
      else rx;
    if rx1.connected && rx1.rate != rx1.nextRate then LoseConnection(rx1) else rx1
  }

  /** PREPARE announces a rate without touching the receiver's rate or ratio. */
  lemma PrepareChangesNothing(rx: Rx, now: uint32, sync: Sync)
    requires sync.phase.Prepare? && sync.rateIndex != rx.rate
    ensures var rx' := ReceiveSync(rx, now, sync);
            && rx'.rate == rx.rate && rx'.nextRate == rx.nextRate && rx'.denominator == rx.denominator
            && !rx'.commitPending && RxLoop(rx', now).denominator == rx.denominator
            && (rx.rate == rx.nextRate ==> RxLoop(rx', now).rate == rx.rate)
  {
  }

  // ----- the two main programs, in place -----

  class TxMain {
    var rate: uint8
    var currTlmDenom: uint8
    var configRate: uint8
    var configTlm: uint8
    var armed: bool
    var modified: bool
    var syncSpamCounter: uint32
    var rateCommitActive: bool
    var rateCommitAtMs: uint32
    var txPayloadPending: bool

    function View(): Tx
      reads this
    {
      Tx(rate, currTlmDenom, configRate, configTlm, armed, modified,
         syncSpamCounter, rateCommitActive, rateCommitAtMs, txPayloadPending)
    }

    constructor (rateIndex: uint8, tlm: uint8)
      requires rateIndex < RATE_MAX && tlm <= TLM_RATIO_DISARMED
      ensures View().Valid() && rate == configRate == rateIndex && !rateCommitActive && !modified && !txPayloadPending
    {
      rate, configRate, configTlm, currTlmDenom := rateIndex, rateIndex, tlm, 1;
      armed, modified, rateCommitActive, txPayloadPending := false, false, false, false;
      syncSpamCounter, rateCommitAtMs := 0, 0;
    }

    method ChangeConfig(newRate: uint8, tlm: uint8)
      modifies this
      ensures View() == Configure(old(View()), newRate, tlm)
    {
      if configRate != newRate {
        configRate, modified := newRate, true;
      }
      if configTlm != tlm {
        configTlm, modified := tlm, true;
      }
      SetSyncSpam();
    }

    method SetSyncSpam()
      modifies this
      ensures View() == if old(modified) then old(View()).(commitActive := false, syncSpam := SYNC_SPAM_AMOUNT)
                        else old(View())
    {
      if modified {
        rateCommitActive := false;
        syncSpamCounter := SYNC_SPAM_AMOUNT;
      }
    }

    method GenerateSyncPacket(now: uint32, effective: Ratio) returns (sync: Sync)
      requires View().Valid()
      modifies this
      ensures (View(), sync) == GenerateSync(old(View()), now, effective)
    {
      var index := if syncSpamCounter > 0 || rateCommitActive then configRate else rate;
      if syncSpamCounter > 0 {
        syncSpamCounter := syncSpamCounter - 1;
      }
      sync := Sync(index, if index != rate then View().AnnouncedRatio() else effective, Plain, 0);
      if index != rate {
        sync := sync.(phase := if rateCommitActive then Commit else Prepare);
        if rateCommitActive {
          var remaining := if Reached(now, rateCommitAtMs) then 0 else Wrap32(rateCommitAtMs - now);
          sync := sync.(delay := CommitTicks(remaining));
        }
      }
    }

    /** `accepted` is what the radio driver answers to the one packet offered. */
    method SendRCdataToRF(now: uint32, slot: Slot, effective: Ratio, accepted: bool) returns (queued: Queued)
      requires View().Valid() && (slot.SpamSlot? ==> syncSpamCounter > 0)
      modifies this
      ensures (View(), queued) == Transmit(old(View()), now, slot, effective, accepted)
    {
      queued := NothingQueued;
      if txPayloadPending {
        return;
      }
      if rateCommitActive {
        if !Reached(now, rateCommitAtMs) {
          var sync := GenerateSyncPacket(now, effective);
          if accepted {
            txPayloadPending, queued := true, SyncQueued(sync);
          }
        }
        return;
      }
      if !slot.DataSlot? {
        var sync := GenerateSyncPacket(now, effective);
        if accepted {
          txPayloadPending, queued := true, SyncQueued(sync);
        } else if slot.SpamSlot? {
          syncSpamCounter := syncSpamCounter + 1;
        }
      } else if accepted {
        txPayloadPending, queued := true, DataQueued;
      }
    }

    method CheckConfigChangePending(now: uint32)
      requires View().Valid()
      modifies this
      ensures View() == CheckConfigChange(old(View()), now)
    {
      if modified {
        if syncSpamCounter > 0 || txPayloadPending {
          return;
        }
        if configRate != rate {
          if !rateCommitActive {
            rateCommitActive := true;
            rateCommitAtMs := Wrap32(now + COMMIT_WINDOW_MS);
            return;
          }
          if !Reached(now, Wrap32(rateCommitAtMs + TX_GUARD_MS)) {
            return;
          }
        }
        rateCommitActive := false;
        ChangeRadioParams();
      }
    }

    method ChangeRadioParams()
      requires View().Valid() && !rateCommitActive
      modifies this
      ensures View() == old(View()).(modified := false, rate := configRate,
                denominator := if old(rate) != configRate then Denominator(old(View()).AnnouncedRatio())
                               else old(currTlmDenom))
    {
      var rateChanged := configRate != rate;
      if rateChanged {
        currTlmDenom := Denominator(View().AnnouncedRatio());
      }
      rate, modified := configRate, false;
    }
  }

  class RxMain {
    var rate: uint8
    var nextAirRateIndex: uint8
    var currTlmDenom: uint8
    var connected: bool
    var rateCommitPending: bool
    var rateCommitAtMs: uint32
    var rateCommitTarget: uint8
    var rateCommitRatio: Ratio

    function View(): Rx
      reads this
    {
      Rx(rate, nextAirRateIndex, currTlmDenom, connected, rateCommitPending,
         rateCommitAtMs, rateCommitTarget, rateCommitRatio)
    }

    constructor (rateIndex: uint8)
      ensures rate == nextAirRateIndex == rateIndex && !rateCommitPending && !connected
    {
      rate, nextAirRateIndex, currTlmDenom := rateIndex, rateIndex, 1;
      connected, rateCommitPending := false, false;
      rateCommitAtMs, rateCommitTarget, rateCommitRatio := 0, 0, 0;
    }

    method ProcessSync(now: uint32, sync: Sync)
      modifies this
      ensures View() == ReceiveSync(old(View()), now, sync)
    {
      var deferredRate := sync.rateIndex != rate && !sync.phase.Plain?;
      if deferredRate {
        rateCommitPending := sync.phase.Commit?;
        if rateCommitPending {
          rateCommitTarget, rateCommitRatio := sync.rateIndex, sync.newTlmRatio;
          rateCommitAtMs := Wrap32(now + sync.delay * TICK_MS);
        }
      } else {
        rateCommitPending := false;
        nextAirRateIndex := sync.rateIndex;
        currTlmDenom := Denominator(sync.newTlmRatio);
      }
    }

    method LostConnection()
      modifies this
      ensures View() == LoseConnection(old(View()))
    {
      connected, rateCommitPending := false, false;
      rate := nextAirRateIndex;
    }

    method Loop(now: uint32)
      modifies this
      ensures View() == RxLoop(old(View()), now)
    {
      if rateCommitPending && Reached(now, rateCommitAtMs) {
        rateCommitPending := false;
        nextAirRateIndex := rateCommitTarget;
        currTlmDenom := Denominator(rateCommitRatio);
        LostConnection();
      }
      if connected && rate != nextAirRateIndex {
        LostConnection();
      }
    }
  }
}
