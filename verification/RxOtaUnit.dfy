/** rx_ota_sender.c as it runs: static variables updated by every driver event. The calls
    from outside keep the invariant of `RxOtaCoverage`: what was sent is right, and while
    the sender waits for the finish it is the whole image. */
module RxOtaUnit {
  import opened RxOtaCoverage
  import opened RxOtaMeta
  import opened RxOtaSender
  import opened Widths

  class RxOtaUpdater {
    const flash: Flash
    var state: State
    var meta: Meta
    var terminalId: seq<uint8>
    var nextPacketIndex: uint16
    var totalPackets: uint16
    var deadlineMs: uint32
    var handshakeAttempt: uint8
    var handshakeInitialized: bool
    var firstPacketQueued: bool
    /** History: the packets handed to the radio since the last start. */
    ghost var sent: seq<Packet>

    ghost function Value(): Sender
      reads this
    {
      Sender(state, meta, terminalId, nextPacketIndex, totalPackets, deadlineMs,
             handshakeAttempt, handshakeInitialized, firstPacketQueued, sent)
    }

    ghost predicate Valid()
      reads this
    {
      Inv(flash, Value())
    }

    /** All packets, put together and cut to the announced length. */
    ghost predicate WholeImageSent()
      reads this
    {
      && SentUpTo(sent, totalPackets)
      && |Reassembled(sent, totalPackets)| >= meta.firmwareLen
      && Reassembled(sent, totalPackets)[..meta.firmwareLen] == Image(flash, meta)
    }

    constructor (flash: Flash)
      ensures Valid() && Value() == PowerUp() && this.flash == flash
    {
      this.flash := flash;
      state := Idle;
      meta := Meta(0, 0, 0, 0, Zeros(4), Zeros(8));
      terminalId := Zeros(8);
      nextPacketIndex, totalPackets, deadlineMs, handshakeAttempt := 0, 0, 0, 0;
      handshakeInitialized, firstPacketQueued := false, false;
      sent := [];
    }

    method SendPacket(index: uint16, env: Env) returns (ok: bool)
      modifies this`deadlineMs, this`sent
      ensures (Value(), ok) == RxOtaSender.SendPacket(flash, old(Value()), index, env)
    {
      if index == 0 || index > totalPackets || ReadLen(meta, index) == 0 {
        return false;
      }
      var payload := Payload(flash, meta, index);
      if !env.readOk || !env.sendOk {
        return false;
      }
      sent := sent + [Packet(index, payload)];
      deadlineMs := Wrap32(env.now + UPGRADE_TIMEOUT);
      return true;
    }

    method Fail()
      modifies this`state, this`handshakeInitialized
      ensures Value() == RxOtaSender.Fail(old(Value()))
    {
      handshakeInitialized := false;
      state := Failed;
    }

    method ContinueAfterPacketSend()
      modifies this`state
      ensures Value() == RxOtaSender.ContinueAfterPacketSend(old(Value()))
    {
      if nextPacketIndex > totalPackets {
        state := WaitFinish;
      } else {
        state := Sending;
      }
    }

    method SendNextPacket(env: Env)
      modifies this
      ensures Value() == RxOtaSender.SendNextPacket(flash, old(Value()), env)
    {
      if nextPacketIndex > totalPackets {
        state := WaitFinish;
        deadlineMs := Wrap32(env.now + UPGRADE_TIMEOUT);
        return;
      }
      var ok := SendPacket(nextPacketIndex, env);
      if !ok {
        Fail();
        return;
      }
      nextPacketIndex := Wrap16(nextPacketIndex + 1);
      ContinueAfterPacketSend();
    }

    method HandleBurnResponse(data: seq<uint8>, env: Env)
      modifies this
      ensures Value() == RxOtaSender.HandleBurnResponse(flash, old(Value()), data, env)
    {
      if |data| != BURN_RESPONSE_LEN {
        return;
      }
      if data[2] == BURN_RESPONSE_RESEND {
        var ok := SendPacket(data[0] as int + 0x100 * data[1] as int, env);
        if !ok {
          Fail();
        } else {
          ContinueAfterPacketSend();
        }
      } else if data[2] == BURN_RESPONSE_FINISH {
        handshakeInitialized := false;
        state := Done;
      }
    }

    method SendHandshakeRequest(env: Env) returns (ok: bool)
      modifies this`handshakeInitialized, this`handshakeAttempt, this`deadlineMs, this`state
      ensures (Value(), ok) == RxOtaSender.SendHandshakeRequest(old(Value()), env)
    {
      if !handshakeInitialized {
        if !env.slotInitOk {
          return false;
        }
        handshakeInitialized := true;
      } else if !env.slotSetOk {
        return false;
      }
      if !env.sendOk {
        return false;
      }
      handshakeAttempt := Wrap8(handshakeAttempt + 1);
      deadlineMs := Wrap32(env.now + HANDSHAKE_REQ_TIMEOUT);
      state := WaitHandshakeTx;
      return true;
    }

    method InitUpgradeSlots(env: Env)
      modifies this
      ensures Value() == RxOtaSender.InitUpgradeSlots(flash, old(Value()), env)
    {
      handshakeInitialized := false;
      if !env.slotInitOk {
        Fail();
        return;
      }
      nextPacketIndex := 1;
      firstPacketQueued := false;
      var ok := SendPacket(nextPacketIndex, env);
      if !ok {
        Fail();
        return;
      }
      nextPacketIndex := nextPacketIndex + 1;
      firstPacketQueued := true;
      state := WaitUpgradeBcn;
      deadlineMs := Wrap32(env.now + UPGRADE_TIMEOUT);
    }

    /** `RxOtaSender_Start`: a run begins only with a description that `metaRead` accepts. */
    method Start(env: Env, crc: Checksum16, metaReadOk: bool, metaBytes: seq<uint8>) returns (ok: bool)
      requires Valid() && |metaBytes| == META_SIZE
      modifies this
      ensures Valid() && Value() == RxOtaSender.Start(old(Value()), env, MetaRead(crc, metaReadOk, metaBytes))
      ensures ok <==> Active(Value())
    {
      var read := MetaRead(crc, metaReadOk, metaBytes);
      StartInv(flash, Value(), env, read);
      if !state.Idle? && !state.Done? && !state.Failed? && !state.VersionSame? {
        return true;
      }
      if read.Rejected? {
        state := Failed;
        return false;
      }
      BeginRun(read.meta);
      if totalPackets == 0 {
        state := Failed;
        return false;
      }
      RequestOrFail(env);
      return !state.Failed?;
    }

    method BeginRun(read: Meta)
      modifies this`meta, this`totalPackets, this`handshakeAttempt, this`handshakeInitialized, this`sent
      ensures Value() == Begin(old(Value()), read)
    {
      meta := read;
      totalPackets := Wrap16(TotalPackets(meta));
      handshakeAttempt := 0;
      handshakeInitialized := false;
      sent := [];
    }

    method RequestOrFail(env: Env)
      modifies this
      ensures Value() == RxOtaSender.RequestOrFail(old(Value()), env)
    {
      var ok := SendHandshakeRequest(env);
      if !ok {
        Fail();
      }
    }

    method OnTxDone(slot: uint8, env: Env)
      modifies this
      ensures Value() == RxOtaSender.OnTxDone(flash, old(Value()), slot, env)
    {
      if state.WaitHandshakeTx? {
        if !env.slotSetOk || !env.openOk {
          Fail();
        } else {
          deadlineMs := Wrap32(env.now + HANDSHAKE_RSP_TIMEOUT_MIN + handshakeAttempt % 4 * HANDSHAKE_RSP_TIMEOUT_STEP);
          state := WaitHandshakeResponse;
        }
      } else if state.WaitAckTx? {
        InitUpgradeSlots(env);
      } else if state.Sending? && slot == UPGRADE_TX_SLOT {
        SendNextPacket(env);
      }
    }

    method OnHandshakeResponse(data: seq<uint8>, env: Env)
      modifies this
      ensures Value() == RxOtaSender.OnHandshakeResponse(old(Value()), data, env)
    {
      if |data| != 8 {
        return;
      }
      if data == seq(8, _ => 0xFF) {
        handshakeInitialized := false;
        state := VersionSame;
        return;
      }
      terminalId := data;
      if !env.slotSetOk || !env.sendOk {
        Fail();
      } else {
        deadlineMs := Wrap32(env.now + HANDSHAKE_ACK_TIMEOUT);
        state := WaitAckTx;
      }
    }

    method OnRxDone(slot: uint8, dataSlot: bool, data: seq<uint8>, env: Env)
      modifies this
      ensures Value() == RxOtaSender.OnRxDone(flash, old(Value()), slot, dataSlot, data, env)
    {
      if state.WaitHandshakeResponse? {
        OnHandshakeResponse(data, env);
      } else if state.WaitUpgradeBcn? || state.Sending? {
        if !dataSlot && slot == UPGRADE_BCN_SLOT {
          if state.WaitUpgradeBcn? {
            state := if firstPacketQueued then Sending else WaitUpgradeBcn;
          }
        } else {
          HandleBurnResponse(data, env);
        }
      } else if state.WaitFinish? {
        if dataSlot {
          HandleBurnResponse(data, env);
        }
      }
    }

    /** `RxOtaSender_Update` */
    method Update(irq: Irq, env: Env)
      requires Valid()
      modifies this
      ensures Valid() && Value() == RxOtaSender.Update(flash, old(Value()), irq, env)
      ensures state.WaitFinish? ==> WholeImageSent()
      ensures state.Failed? || RxOtaSender.Progress(old(Value())) <= RxOtaSender.Progress(Value())
    {
      UpdateInv(flash, Value(), irq, env);
      UpdateProgress(flash, Value(), irq, env);
      Dispatch(irq, env);
      ImageIsSent(flash, Value());
    }

    /** `RxOtaSender_GetProgressPercent` */
    method GetProgress() returns (percent: uint8)
      requires Valid()
      ensures percent as int == RxOtaSender.Progress(Value()) && percent <= 100
      ensures state.WaitFinish? ==> percent == 100 && WholeImageSent()
    {
      ImageIsSent(flash, Value());
      if state.WaitFinish? {
        FullAtFinish(flash, Value());
      }
      if state.Done? || state.VersionSame? {
        return 100;
      }
      if !(state.WaitUpgradeBcn? || state.Sending? || state.WaitFinish?) || totalPackets == 0 {
        return 0;
      }
      var done: int := if nextPacketIndex > 0 then nextPacketIndex - 1 else 0;
      if done > totalPackets {
        done := totalPackets;
      }
      Percent(done, totalPackets);
      return done * 100 / totalPackets;
    }

    method Dispatch(irq: Irq, env: Env)
      modifies this
      ensures Value() == RxOtaSender.Update(flash, old(Value()), irq, env)
    {
      if state.Idle? || state.Done? || state.Failed? || state.VersionSame? {
        return;
      }
      match irq
      case NoIrq =>
        if Reached(env.now, deadlineMs) {
          if state.WaitHandshakeTx? || state.WaitHandshakeResponse? {
            var _ := SendHandshakeRequest(env);
          } else {
            Fail();
          }
        }
      case TxDone(slot) => OnTxDone(slot, env);
      case RxDone(slot, dataSlot, data) => OnRxDone(slot, dataSlot, data, env);
      case OtherIrq =>
    }
  }
}
