/** What the rate change does rather than avoids: what is announced, when, and that an end
    that hears it acts on it. */
module RateChangeProgress {
  import opened Widths
  import opened RateSwitch
  import opened RateChangeRun

  // ----- what goes out ------------------------------------------------------------

  /** Before its instant a commit uses every chance: whatever the schedule wanted, a free
      radio that accepts carries a COMMIT with the new rate and ratio and the time left. */
  lemma CommitGoesOut(tx: Tx, now: uint32, slot: Slot, effective: Ratio, accepted: bool)
    requires tx.Valid() && tx.commitActive && tx.syncSpam == 0 && tx.configRate != tx.rate && slot != SpamSlot
    ensures Transmit(tx, now, slot, effective, accepted)
         == if accepted && !tx.pending && !Reached(now, tx.commitAt) then
              (tx.(pending := true),
               SyncQueued(Sync(tx.configRate, tx.AnnouncedRatio(), Commit, CommitTicks(Wrap32(tx.commitAt - now)))))
            else (tx, NothingQueued)
  {
  }

  /** In every run: at each free moment of the window a COMMIT is put on the air. */
  lemma WindowIsUsed(w0: World, es: seq<Event>, slot: Slot, effective: Ratio)
    requires Start(w0) && AllowedRun(w0, es) && Allowed(Run(w0, es), Service(slot, effective, true))
    requires var w := Run(w0, es); w.tx.commitActive && !w.tx.pending && w.t < w.commitTime
    ensures var w := Run(w0, es);
            var w' := Step(w, Service(slot, effective, true));
            && |w'.air| == |w.air| + 1 && w'.air[..|w.air|] == w.air && GoodCommit(w, w'.air[|w.air|])
            && w'.air[|w.air|].queuedAt == w.t && w'.air[|w.air|].rate == w.tx.rate
  {
    RunInv(w0, es);
    var w := Run(w0, es);
    CommitClock(w);
    CommitService(w, slot, effective, true);
    CommitGoesOut(w.tx, w.TxNow(), slot, effective, true);
  }

  /** A COMMIT that arrives while the receiver is on the old rate is heard, and one heard is
      enough: at its deadline the receiver is on the new rate. */
  lemma OneCommitIsEnough(w0: World, es: seq<Event>)
    requires Start(w0) && AllowedRun(w0, es)
    requires var w := Run(w0, es);
             !w.switched && w.air != [] && w.air[0].sync.phase.Commit? && w.rx.rate == w.tx.rate
    ensures Allowed(Run(w0, es), Arrive)
    ensures var w' := Step(Run(w0, es), Arrive); w'.heard && Waiting(w') && AppliedByDeadline(w')
  {
    RunInv(w0, es);
    CommitArrives(Run(w0, es));
  }

  /** Without a commit: the announcement of a burst names the configured rate, as PREPARE if
      that differs, and counts itself down when the radio takes it; a regular sync outside
      a burst names the rate in use; and data goes out as data. */
  lemma QuietGoesOut(tx: Tx, now: uint32, slot: Slot, effective: Ratio)
    requires tx.Valid() && !tx.commitActive && !tx.pending && (slot.SpamSlot? ==> tx.syncSpam > 0)
    ensures var (tx', queued) := Transmit(tx, now, slot, effective, true);
            && tx'.pending
            && (slot.DataSlot? ==> queued == DataQueued && tx' == tx.(pending := true))
            && (!slot.DataSlot? && tx.syncSpam > 0 ==>
                  && tx' == tx.(pending := true, syncSpam := tx.syncSpam - 1)
                  && queued == SyncQueued(if tx.configRate != tx.rate
                                          then Sync(tx.configRate, tx.AnnouncedRatio(), Prepare, 0)
                                          else Sync(tx.rate, effective, Plain, 0)))
            && (slot.RegularSlot? && tx.syncSpam == 0 ==>
                  tx' == tx.(pending := true) && queued == SyncQueued(Sync(tx.rate, effective, Plain, 0)))
  {
  }

  /** A refused announcement is offered again: it has not been counted. */
  lemma RefusedIsNotCounted(tx: Tx, now: uint32, effective: Ratio)
    requires tx.Valid() && !tx.commitActive && tx.syncSpam > 0
    ensures Transmit(tx, now, SpamSlot, effective, false) == (tx, NothingQueued)
  {
  }

  // ----- from the user's change to the commit -------------------------------------

  /** A burst slot taken by the radio and sent. */
  function Announced(tx: Tx, now: uint32, effective: Ratio): Tx
    requires tx.Valid() && tx.syncSpam > 0
  {
    Transmit(tx, now, SpamSlot, effective, true).0.(pending := false)
  }

  function AnnouncedTimes(tx: Tx, now: uint32, effective: Ratio, times: nat): (tx': Tx)
    requires tx.Valid() && times <= tx.syncSpam && !tx.commitActive && !tx.pending
    ensures tx' == tx.(syncSpam := tx.syncSpam - times)
  {
    if times == 0 then tx else Announced(AnnouncedTimes(tx, now, effective, times - 1), now, effective)
  }

  /** The user interface's change is announced from the beginning, and a commit under way given
      up, exactly when something differs or an earlier difference is still unannounced. */
  lemma ChangeIsAnnounced(tx: Tx, rate: uint8, tlm: uint8)
    ensures var tx' := Configure(tx, rate, tlm);
            && tx'.configRate == rate && tx'.configTlm == tlm && tx'.rate == tx.rate
            && (if tx.modified || rate != tx.configRate || tlm != tx.configTlm
                then tx'.modified && tx'.syncSpam == SYNC_SPAM_AMOUNT && !tx'.commitActive else tx' == tx)
  {
  }

  /** The commit begins exactly when a difference in rate is waiting, its burst is over and
      the radio is free; its instant is then 200 ms away. */
  lemma CommitBegins(tx: Tx, now: uint32)
    requires tx.Valid() && !tx.commitActive
    ensures var tx' := CheckConfigChange(tx, now);
            && (tx'.commitActive <==> tx.modified && tx.syncSpam == 0 && !tx.pending && tx.configRate != tx.rate)
            && (tx'.commitActive ==> tx' == tx.(commitActive := true, commitAt := Wrap32(now + COMMIT_WINDOW_MS)))
  {
  }

  /** A change of the ratio alone needs no commit: it is done when its burst is over. */
  lemma RatioChangeIsDone(tx: Tx, now: uint32)
    requires tx.Valid() && !tx.commitActive && tx.modified && tx.configRate == tx.rate
    ensures CheckConfigChange(tx, now)
         == if tx.syncSpam == 0 && !tx.pending then tx.(modified := false) else tx
  {
  }

  /** From a quiet transmitter a change of rate leads, after exactly a hundred announcements
      and at the next look, to a commit; not a single announcement earlier. */
  lemma ChangeLeadsToCommit(tx: Tx, rate: uint8, tlm: uint8, t: uint32, now: uint32, effective: Ratio, times: nat)
    requires tx.Valid() && !tx.commitActive && !tx.pending && rate != tx.rate && rate < RATE_MAX
    requires rate != tx.configRate && tlm <= TLM_RATIO_DISARMED && times <= SYNC_SPAM_AMOUNT
    ensures var changed := Configure(tx, rate, tlm);
            && changed.Valid() && changed.syncSpam == SYNC_SPAM_AMOUNT && !changed.commitActive && !changed.pending
            && var looked := CheckConfigChange(AnnouncedTimes(changed, t, effective, times), now);
               (looked.commitActive <==> times == SYNC_SPAM_AMOUNT)
               && (looked.commitActive ==> looked.commitAt == Wrap32(now + COMMIT_WINDOW_MS) && looked.rate == tx.rate)
  {
    var changed := Configure(tx, rate, tlm);
    CommitBegins(AnnouncedTimes(changed, t, effective, times), now);
  }

  // ----- what the receiver makes of it --------------------------------------------

  /** A COMMIT is applied by the first loop at or after its countdown, not before, with its
      rate and ratio; both instants less than half the clock range apart. */
  lemma CommitIsApplied(rx: Rx, t: nat, later: nat, sync: Sync)
    requires sync.phase.Commit? && sync.rateIndex != rx.rate && rx.rate == rx.nextRate
    requires t <= later && later - t < 0x8000_0000
    ensures var rx' := RxLoop(ReceiveSync(rx, Wrap32(t), sync), Wrap32(later));
            if later >= t + sync.delay * TICK_MS then
              && rx'.rate == rx'.nextRate == sync.rateIndex && rx'.denominator == Denominator(sync.newTlmRatio)
              && !rx'.commitPending && !rx'.connected
            else rx'.rate == rx.rate && rx'.denominator == rx.denominator && rx'.commitPending
  {
    WrapSum(t, sync.delay * TICK_MS);
    ReachedMeansPast(later, t + sync.delay * TICK_MS, 0);
  }

  /** A plain SYNC is followed at once: its ratio is taken, a waiting commit is dropped, and a
      connected receiver on another rate moves to the rate named in its next loop. */
  lemma PlainIsFollowed(rx: Rx, t: uint32, now: uint32, sync: Sync)
    requires sync.phase.Plain?
    ensures var rx' := ReceiveSync(rx, t, sync);
            && rx'.denominator == Denominator(sync.newTlmRatio) && !rx'.commitPending && rx'.rate == rx.rate
            && RxLoop(rx', now).denominator == rx'.denominator
            && (rx.connected ==> RxLoop(rx', now).rate == sync.rateIndex)
  {
  }

  // ----- the tables ---------------------------------------------------------------

  function TwoTo(n: nat): nat { if n == 0 then 1 else 2 * TwoTo(n - 1) }

  /** `1 << (8 + TLM_RATIO_NO_TLM - enum)`: each step of the ratio halves the denominator,
      from 128 down to 2; without telemetry it is 1. */
  lemma DenominatorIsPower(r: Ratio)
    ensures Denominator(r) as int == if r == 0 then 1 else TwoTo(8 - r)
  {
    assert TwoTo(1) == 2 && TwoTo(2) == 4 && TwoTo(3) == 8 && TwoTo(4) == 16;
    assert TwoTo(5) == 32 && TwoTo(6) == 64 && TwoTo(7) == 128;
  }

  /** The ratio that the transmitter announces, as its own denominator: what both ends use. */
  lemma AnnouncedRatioIsConfigured(tx: Tx)
    requires tx.Valid() && tx.configTlm != TLM_RATIO_STD && tx.configTlm != TLM_RATIO_DISARMED
    ensures tx.AnnouncedRatio() + TLM_RATIO_NO_TLM == tx.configTlm as int
    ensures Denominator(tx.AnnouncedRatio()) as int
         == if tx.configTlm == TLM_RATIO_NO_TLM then 1 else TwoTo(8 + TLM_RATIO_NO_TLM - tx.configTlm)
  {
    DenominatorIsPower(tx.AnnouncedRatio());
  }

  /** Milliseconds between two packets, rate by rate. */
  function PacketInterval(rate: uint8): nat
    requires rate < RATE_MAX
  {
    [200, 100, 60, 40, 20, 10, 5, 4][rate]
  }

  /** Left to the table, telemetry comes about three times a second at every rate. */
  lemma SuggestedPeriod(rate: uint8)
    requires rate < RATE_MAX
    ensures TLM_RATIO_NO_TLM < SuggestedRatio(rate) < TLM_RATIO_DISARMED
    ensures 256 <= PacketInterval(rate) * Denominator(SuggestedRatio(rate) - TLM_RATIO_NO_TLM) <= 480
  {
  }

  /** In the DISARMED setting arming switches telemetry off, and only that. */
  lemma ArmingSilences(armed: bool, rate: uint8)
    requires rate < RATE_MAX
    ensures ConfiguredRatio(TLM_RATIO_DISARMED, armed, rate) == TLM_RATIO_NO_TLM <==> armed
    ensures ConfiguredRatio(TLM_RATIO_DISARMED, false, rate) == ConfiguredRatio(TLM_RATIO_STD, armed, rate)
  {
  }
}
