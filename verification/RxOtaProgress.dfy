/** What the firmware sender does when things go right: which packet a resend sends, which
    timeouts end a run, and the whole way from the start to DONE. */
module RxOtaProgress {
  import opened Bytes
  import opened RxOtaCoverage
  import opened RxOtaMeta
  import opened RxOtaSender
  import opened Widths

  // ----- resends ------------------------------------------------------------------

  /** The receiver names the packet it wants low byte first. */
  function ResendRequest(index: uint16): (data: seq<uint8>)
    ensures |data| == BURN_RESPONSE_LEN
  {
    Le16(index) + [BURN_RESPONSE_RESEND]
  }

  lemma RequestNames(index: uint16)
    ensures var d := ResendRequest(index);
            d[0] as int + 0x100 * d[1] as int == index && d[2] == BURN_RESPONSE_RESEND
  {
    ReadBack16(index);
    assert ResendRequest(index)[..2] == Le16(index);
  }

  /** A packet of the image asked for again is sent again, and nothing else; the next packet
      to send stays the same. */
  lemma ResendSendsThatPacket(flash: Flash, s: Sender, index: uint16, env: Env)
    requires Inv(flash, s) && Upgrading(s) && 1 <= index <= s.total && AllGood(env)
    ensures var s' := HandleBurnResponse(flash, s, ResendRequest(index), env);
            && s'.sent == s.sent + [Packet(index, Payload(flash, s.meta, index))]
            && s'.next == s.next && s'.deadline == Wrap32(env.now + UPGRADE_TIMEOUT)
            && s'.state == if s.next > s.total then WaitFinish else State.Sending
  {
    RequestNames(index);
    ReadsStayInside(s.meta, index);
  }

  /** A request for a packet the image does not have, or one that the drivers refuse, ends
      the run. */
  lemma ResendFails(flash: Flash, s: Sender, index: uint16, env: Env)
    requires Inv(flash, s) && Upgrading(s)
    ensures HandleBurnResponse(flash, s, ResendRequest(index), env).state.Failed?
       <==> !(1 <= index <= s.total && env.readOk && env.sendOk)
  {
    RequestNames(index);
    if 1 <= index <= s.total {
      ReadsStayInside(s.meta, index);
    }
  }

  // ----- timeouts -----------------------------------------------------------------

  /** A poll without an event does nothing before the deadline. After it the handshake is
      tried again and any other wait has failed. */
  lemma OnlyTheDeadlineCounts(flash: Flash, s: Sender, env: Env)
    requires Active(s)
    ensures !Reached(env.now, s.deadline) ==> Update(flash, s, NoIrq, env) == s
    ensures Reached(env.now, s.deadline) ==>
              var s' := Update(flash, s, NoIrq, env);
              if s.state.WaitHandshakeTx? || s.state.WaitHandshakeResponse? then
                Active(s') && (env.sendOk && env.slotInitOk && env.slotSetOk ==>
                                 s'.state.WaitHandshakeTx? && s'.attempt == Wrap8(s.attempt + 1)
                                 && s'.deadline == Wrap32(env.now + HANDSHAKE_REQ_TIMEOUT))
              else s'.state.Failed?
  {
  }

  // ----- the whole way ------------------------------------------------------------

  /** Every driver call of every event works. */
  predicate DriversWork(env: Env) { env.slotInitOk && env.slotSetOk && env.openOk && env.readOk && env.sendOk }

  /** A terminal that answers with its eight bytes, not all 0xFF, and later with a beacon. */
  predicate IsTerminal(data: seq<uint8>) { |data| == 8 && data != seq(8, _ => 0xFF) }

  /** Start, request sent, response, acknowledgement sent with the first packet queued, beacon. */
  function Handshake(flash: Flash, s: Sender, m: MetaResult, data: seq<uint8>, env: Env): Sender {
    var started := Start(s, env, m);
    var asked := Update(flash, started, TxDone(0), env);
    var answered := Update(flash, asked, RxDone(0, false, data), env);
    var acknowledged := Update(flash, answered, TxDone(0), env);
    Update(flash, acknowledged, RxDone(UPGRADE_BCN_SLOT, false, []), env)
  }

  lemma HandshakeStarts(flash: Flash, s: Sender, m: MetaResult, data: seq<uint8>, env: Env)
    requires Inv(flash, s) && !Active(s) && m.Accepted? && m.meta.InRegion() && DriversWork(env) && IsTerminal(data)
    ensures var answered := Update(flash, Update(flash, Start(s, env, m), TxDone(0), env), RxDone(0, false, data), env);
            && answered.state.WaitAckTx? && answered.meta == m.meta && answered.total == TotalPackets(m.meta)
            && answered.terminalId == data && answered.sent == []
  {
    TotalIsSmall(m.meta);
  }

  lemma HandshakeEnds(flash: Flash, s: Sender, env: Env)
    requires s.state.WaitAckTx? && s.meta.InRegion() && s.total == TotalPackets(s.meta) && s.sent == []
    requires DriversWork(env)
    ensures var z := Update(flash, Update(flash, s, TxDone(0), env), RxDone(UPGRADE_BCN_SLOT, false, []), env);
            && z.state.Sending? && z.next == 2 && z.meta == s.meta && z.total == s.total
            && z.sent == [Packet(1, Payload(flash, s.meta, 1))]
  {
    TotalIsSmall(s.meta);
    ReadsStayInside(s.meta, 1);
  }

  lemma HandshakeInv(flash: Flash, s: Sender, m: MetaResult, data: seq<uint8>, env: Env)
    requires Inv(flash, s) && (m.Accepted? ==> m.meta.InRegion())
    ensures Inv(flash, Handshake(flash, s, m, data, env))
  {
    StartInv(flash, s, env, m);
    var started := Start(s, env, m);
    UpdateInv(flash, started, TxDone(0), env);
    var asked := Update(flash, started, TxDone(0), env);
    UpdateInv(flash, asked, RxDone(0, false, data), env);
    var answered := Update(flash, asked, RxDone(0, false, data), env);
    UpdateInv(flash, answered, TxDone(0), env);
    UpdateInv(flash, Update(flash, answered, TxDone(0), env), RxDone(UPGRADE_BCN_SLOT, false, []), env);
  }

  function Finish(): Irq { RxDone(0, true, [0, 0, BURN_RESPONSE_FINISH]) }

  /** With working drivers and a terminal that answers, an update goes all the way: after
      the handshake the first packet is on its way, after one finished transmission for
      every packet left (one more when the first was all) the whole image has been sent,
      and the receiver's finish then means DONE. */
  lemma CleanUpdateCompletes(flash: Flash, s: Sender, m: MetaResult, data: seq<uint8>, env: Env, envs: seq<Env>)
    requires Inv(flash, s) && !Active(s) && m.Accepted? && m.meta.InRegion() && DriversWork(env) && IsTerminal(data)
    requires forall i :: 0 <= i < |envs| ==> AllGood(envs[i])
    requires |envs| == if TotalPackets(m.meta) == 1 then 1 else TotalPackets(m.meta) - 1
    ensures var z := TxRun(flash, Handshake(flash, s, m, data, env), envs);
            && z.state.WaitFinish? && z.meta == m.meta && z.next == z.total + 1 && SentUpTo(z.sent, z.total)
            && |Reassembled(z.sent, z.total)| >= m.meta.firmwareLen
            && Reassembled(z.sent, z.total)[..m.meta.firmwareLen] == Image(flash, m.meta)
            && Update(flash, z, Finish(), env).state.Done?
  {
    HandshakeStarts(flash, s, m, data, env);
    var answered := Update(flash, Update(flash, Start(s, env, m), TxDone(0), env), RxDone(0, false, data), env);
    HandshakeEnds(flash, answered, env);
    HandshakeInv(flash, s, m, data, env);
    TotalIsSmall(m.meta);
    var h := Handshake(flash, s, m, data, env);
    TransmissionsComplete(flash, h, envs);
    ImageIsSent(flash, TxRun(flash, h, envs));
  }

  /** A terminal that has the version already says so with eight bytes of 0xFF. */
  lemma SameVersionIsTold(flash: Flash, s: Sender, slot: uint8, dataSlot: bool, data: seq<uint8>, env: Env)
    requires s.state.WaitHandshakeResponse?
    ensures Update(flash, s, RxDone(slot, dataSlot, data), env).state.VersionSame?
       <==> |data| == 8 && forall i :: 0 <= i < |data| ==> data[i] == 0xFF
  {
    if |data| == 8 && forall i :: 0 <= i < |data| ==> data[i] == 0xFF {
      assert data == seq(8, _ => 0xFF);
    }
  }

  // ----- every event, exactly -----------------------------------------------------

  /** How long a state waits for its next event. */
  function Patience(s: Sender): nat {
    match s.state
    case WaitHandshakeTx => 50
    case WaitHandshakeResponse => 35 + s.attempt % 4 * 5
    case WaitAckTx => 1000
    case _ => 2000
  }

  /** The deadline is that of the state led to; the beacon alone, and a request the drivers
      refuse, leave it as it was. */
  predicate DeadlineIsRight(s: Sender, s': Sender, irq: Irq, env: Env) {
    Active(s') && s' != s ==>
      || s'.deadline == Wrap32(env.now + Patience(s'))
      || (s == s'.(state := WaitUpgradeBcn) && s'.state.Sending? && irq.RxDone?)
      || (s' == s.(handshakeInitialized := true) && irq.NoIrq? && !env.sendOk)
  }

  /** Every event that changes a running update and leaves it running sets the deadline. */
  lemma DeadlinesAreSet(flash: Flash, s: Sender, irq: Irq, env: Env)
    requires Active(s)
    ensures DeadlineIsRight(s, Update(flash, s, irq, env), irq, env)
  {
    match irq
    case NoIrq =>
    case TxDone(slot) => SentSetsDeadline(flash, s, slot, env);
    case RxDone(slot, dataSlot, data) => ReceivedSetsDeadline(flash, s, slot, dataSlot, data, env);
    case OtherIrq =>
  }

  lemma SentSetsDeadline(flash: Flash, s: Sender, slot: uint8, env: Env)
    requires Active(s)
    ensures DeadlineIsRight(s, OnTxDone(flash, s, slot, env), TxDone(slot), env)
  {
  }

  lemma ReceivedSetsDeadline(flash: Flash, s: Sender, slot: uint8, dataSlot: bool, data: seq<uint8>, env: Env)
    requires Active(s)
    ensures DeadlineIsRight(s, OnRxDone(flash, s, slot, dataSlot, data, env), RxDone(slot, dataSlot, data), env)
  {
  }

  /** The receiver asks for a packet that the image does not have, or the drivers refuse it. */
  predicate ResendIsRefused(s: Sender, data: seq<uint8>, env: Env) {
    && |data| == BURN_RESPONSE_LEN && data[2] == BURN_RESPONSE_RESEND
    && !(1 <= data[0] as int + 0x100 * data[1] as int <= s.total && env.readOk && env.sendOk)
  }

  /** A running update fails on a missed deadline outside the handshake, on a driver call
      that its state needs and that reports failure, and on nothing else. */
  lemma FailsExactly(flash: Flash, s: Sender, irq: Irq, env: Env)
    requires Inv(flash, s) && Active(s)
    ensures Update(flash, s, irq, env).state.Failed?
       <==> match irq
            case NoIrq => Reached(env.now, s.deadline) && !s.state.WaitHandshakeTx? && !s.state.WaitHandshakeResponse?
            case TxDone(slot) =>
              || (s.state.WaitHandshakeTx? && !(env.slotSetOk && env.openOk))
              || (s.state.WaitAckTx? && !(env.slotInitOk && env.readOk && env.sendOk))
              || (s.state.Sending? && slot == UPGRADE_TX_SLOT && s.next <= s.total && !(env.readOk && env.sendOk))
            case RxDone(slot, dataSlot, data) =>
              || (s.state.WaitHandshakeResponse? && IsTerminal(data) && !(env.slotSetOk && env.sendOk))
              || ((s.state.WaitUpgradeBcn? || s.state.Sending?) && (dataSlot || slot != UPGRADE_BCN_SLOT)
                  && ResendIsRefused(s, data, env))
              || (s.state.WaitFinish? && dataSlot && ResendIsRefused(s, data, env))
            case OtherIrq => false
  {
    if irq.TxDone? {
      FailsOnTxDone(flash, s, irq.slot, env);
    } else if irq.RxDone? && Upgrading(s) {
      RefusedExactly(flash, s, irq.data, env);
    }
  }

  lemma FailsOnTxDone(flash: Flash, s: Sender, slot: uint8, env: Env)
    requires Inv(flash, s) && Active(s)
    ensures OnTxDone(flash, s, slot, env).state.Failed?
       <==> || (s.state.WaitHandshakeTx? && !(env.slotSetOk && env.openOk))
            || (s.state.WaitAckTx? && !(env.slotInitOk && env.readOk && env.sendOk))
            || (s.state.Sending? && slot == UPGRADE_TX_SLOT && s.next <= s.total && !(env.readOk && env.sendOk))
  {
    TotalIsSmall(s.meta);
    ReadsStayInside(s.meta, 1);
    if Upgrading(s) && s.next <= s.total {
      ReadsStayInside(s.meta, s.next);
    }
  }

  lemma RefusedExactly(flash: Flash, s: Sender, data: seq<uint8>, env: Env)
    requires Inv(flash, s) && Upgrading(s)
    ensures HandleBurnResponse(flash, s, data, env).state.Failed? <==> ResendIsRefused(s, data, env)
  {
    if |data| == BURN_RESPONSE_LEN {
      var index := data[0] as int + 0x100 * data[1] as int;
      if 1 <= index <= s.total {
        ReadsStayInside(s.meta, index);
      }
    }
  }

  /** Events of other slots and states change nothing. */
  lemma OthersAreIgnored(flash: Flash, s: Sender, irq: Irq, env: Env)
    requires Active(s)
    ensures irq.OtherIrq? ==> Update(flash, s, irq, env) == s
    ensures irq.TxDone? && (s.state.WaitHandshakeResponse? || s.state.WaitUpgradeBcn? || s.state.WaitFinish?
                            || (s.state.Sending? && irq.slot != UPGRADE_TX_SLOT)) ==>
              Update(flash, s, irq, env) == s
    ensures irq.RxDone? && (s.state.WaitHandshakeTx? || s.state.WaitAckTx? || (s.state.WaitFinish? && !irq.dataSlot)
                            || (s.state.Sending? && !irq.dataSlot && irq.slot == UPGRADE_BCN_SLOT)
                            || (s.state.WaitHandshakeResponse? && |irq.data| != 8)) ==>
              Update(flash, s, irq, env) == s
  {
  }

  /** The beacon starts the sending, once the first packet has been queued. */
  lemma BeaconStartsSending(flash: Flash, s: Sender, data: seq<uint8>, env: Env)
    requires s.state.WaitUpgradeBcn?
    ensures Update(flash, s, RxDone(UPGRADE_BCN_SLOT, false, data), env)
         == if s.firstPacketQueued then s.(state := State.Sending) else s
  {
  }

  /** A request goes out exactly when the radio takes it and its slot could be set up, anew
      for the first, again for the later ones; each is counted. */
  lemma RequestGoesOut(s: Sender, env: Env)
    ensures var (s', ok) := SendHandshakeRequest(s, env);
            && (ok <==> env.sendOk && (if s.handshakeInitialized then env.slotSetOk else env.slotInitOk))
            && (ok ==> s'.state.WaitHandshakeTx? && s'.attempt == Wrap8(s.attempt + 1) && s'.handshakeInitialized)
            && (!ok ==> s'.state == s.state && s'.attempt == s.attempt && s'.deadline == s.deadline)
  {
  }

  /** A run begins exactly when no other is under way, the description is accepted and counts
      at least one packet, and the first request goes out; otherwise it has failed. */
  lemma StartsExactly(s: Sender, env: Env, m: MetaResult)
    requires !Active(s)
    ensures var s' := Start(s, env, m);
            if m.Accepted? && Wrap16(TotalPackets(m.meta)) != 0 && env.slotInitOk && env.sendOk then
              && s'.state.WaitHandshakeTx? && s'.meta == m.meta && s'.total as int == Wrap16(TotalPackets(m.meta))
              && s'.attempt == 1 && s'.sent == [] && s'.deadline == Wrap32(env.now + 50)
            else s'.state.Failed?
  {
  }

  /** However a run ends, the handshake slot is given up, so that the next one sets it up. */
  lemma EndsAreClean(flash: Flash, s: Sender, irq: Irq, env: Env)
    requires Active(s) && !Active(Update(flash, s, irq, env))
    ensures !Update(flash, s, irq, env).handshakeInitialized
  {
  }

  /** Behind the image a packet is filled with the bytes of erased flash. */
  lemma PayloadBytes(flash: Flash, m: Meta, index: nat, j: nat)
    requires m.InRegion() && 1 <= index <= TotalPackets(m) && j < PAYLOAD_LEN
    ensures var offset := (index - 1) * PAYLOAD_LEN + j;
            Payload(flash, m, index)[j] == if offset < m.firmwareLen then flash(m.imageOffset + offset) else 0xFF
  {
    var p, n := Payload(flash, m, index), ReadLen(m, index);
    if j < n {
      assert p[j] == Slice(flash, m.imageOffset + (index - 1) * PAYLOAD_LEN, n)[j];
    }
  }

  /** The display shows 100 exactly when there is nothing more to send. */
  lemma FullProgress(flash: Flash, s: Sender)
    requires Inv(flash, s)
    ensures Progress(s) == 100 <==> s.state.Done? || s.state.VersionSame? || (Upgrading(s) && s.next == s.total + 1)
    ensures s.state.Idle? || s.state.Failed? || (Active(s) && !Upgrading(s)) ==> Progress(s) == 0
  {
    if Upgrading(s) {
      TotalIsSmall(s.meta);
      WholeShare(s.total);
      if s.next <= s.total {
        PartialShare(s.next - 1, s.total);
      }
    }
  }

  lemma PartialShare(sent: nat, total: nat)
    requires sent < total
    ensures sent * 100 / total < 100
  {
    var q := sent * 100 / total;
    assert sent * 100 == q * total + sent * 100 % total;
    BelowHundred(total, q);
  }

  lemma BelowHundred(total: nat, q: int)
    requires total > 0 && q * total < 100 * total
    ensures q < 100
  {
  }
}
