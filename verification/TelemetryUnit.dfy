/** The telemetry link as it runs: the stubborn sender under the receiver's main program
    (rx_main.c), the stubborn receiver under the transmitter's (tx_main.c), and the radio
    between them. Every call keeps the invariant of `TelemetryPort`, so what its theorems
    say about runs is said about these objects. */
module TelemetryUnit {
  import opened Widths
  import opened StubbornEndpoints
  import opened StubbornLink
  import opened TelemetryPort

  class TelemetryLink {
    const sender: StubbornSender
    const receiver: StubbornReceiver
    var queuedTelemetry: Prepared
    var queuedTelemetryValid: bool
    var telemetryAckArmed: bool
    var nextIsLink: bool
    var telemetryBurstCount: uint8
    var telemetryBurstMax: uint8
    /** What the radio sends next. */
    var slot: Option<Prepared>
    /** History: the messages submitted, completed and taken out, and the chunk on offer. */
    ghost var port: Port

    ghost predicate Agrees()
      reads this, sender, receiver, receiver.data
    {
      && receiver.Valid() && sender.Valid()
      && port.y.s == sender.View() && port.y.r == receiver.View()
      && port == Port(port.y, if queuedTelemetryValid then Some(queuedTelemetry) else None, slot,
                      telemetryAckArmed, nextIsLink, telemetryBurstCount, telemetryBurstMax)
    }

    ghost predicate Valid()
      reads this, sender, receiver, receiver.data
    {
      Agrees() && PortInv(port)
    }

    /** Start-up: `setMaxPackageIndex` resets both ends, and the receive buffer is set. */
    constructor (buffer: array<uint8>, maxIndex: uint8)
      requires buffer.Length <= 255 && maxIndex >= 2
      ensures Valid() && PortStart(port) && receiver.data == buffer && nextIsLink
      ensures fresh(sender) && fresh(receiver)
    {
      sender := new StubbornSender();
      receiver := new StubbornReceiver();
      queuedTelemetry, queuedTelemetryValid, telemetryAckArmed := Prepared(Packet(0, []), 0), false, false;
      nextIsLink, telemetryBurstCount, telemetryBurstMax, slot := true, 0, 0, None;
      new;
      sender.SetMaxPackageIndex(maxIndex);
      receiver.SetMaxPackageIndex(maxIndex);
      receiver.SetDataToReceive(buffer);
      port := Port(System(sender.View(), receiver.View(), None, [], [], []), None, None, false, true, 0, 0);
      StartInv(port.y);
    }

    /** `HandleSendTelemetryResponse`, link and telemetry being on. */
    method HandleSendTelemetryResponse()
      requires Agrees()
      modifies this, sender
      ensures Agrees() && port == Prepare(old(port))
    {
      var link := nextIsLink || sender.senderState == Idle;
      var size := if link then LINK_STATS_PAYLOAD else DATA_PAYLOAD;
      var index, payload := sender.GetCurrentPayload(size);
      ScheduleNext(link);
      queuedTelemetry, queuedTelemetryValid, telemetryAckArmed := Prepared(Packet(index, payload), size), true, false;
      slot := Some(queuedTelemetry);
      port := Prepare(port);
    }

    /** After link statistics a burst of data packets, then link statistics again. */
    method ScheduleNext(link: bool)
      modifies this`nextIsLink, this`telemetryBurstCount
      ensures nextIsLink == (!link && (old(nextIsLink) || old(telemetryBurstCount) >= telemetryBurstMax))
      ensures telemetryBurstCount as int ==
        if link then 1 else if old(telemetryBurstCount) < telemetryBurstMax then old(telemetryBurstCount) + 1
        else old(telemetryBurstCount) as int
    {
      if link {
        nextIsLink, telemetryBurstCount := false, 1;
      } else if telemetryBurstCount < telemetryBurstMax {
        telemetryBurstCount := telemetryBurstCount + 1;
      } else {
        nextIsLink := true;
      }
    }

    /** The main loop's part: an idle sender is given the next message. */
    method SendTelemetry(m: Message)
      requires Valid() && |m| <= receiver.data.Length
      modifies this, sender
      ensures Valid() && port == PortStep(old(port), Poll(m))
    {
      PollInv(port, m);
      if sender.senderState == Idle {
        sender.SetDataToTransmit(m);
        port := port.(y := Step(port.y, Submit(m)));
        HandleSendTelemetryResponse();
      }
    }

    /** The packet in the radio is on the air, and reaches the other end or does not. */
    method PutOnAir(delivered: bool)
      requires Agrees()
      modifies this, receiver, receiver.data
      ensures Agrees() && receiver.data == old(receiver.data)
      ensures port == old(port).(y := Transmit(old(port), delivered), slot := None)
    {
      if slot.Some? && delivered {
        receiver.ReceiveData(Masked(slot.value.packet.index, receiver.maxPackageIndex), slot.value.packet.payload);
      }
      port := port.(y := Transmit(port, delivered), slot := None);
      slot := None;
    }

    /** `TXdoneISR`, after the transmission it reports. */
    method TxDoneIsr(delivered: bool)
      requires Valid()
      modifies this, sender, receiver, receiver.data
      ensures Valid() && receiver.data == old(receiver.data)
      ensures port == PortStep(old(port), TxDone(delivered))
    {
      TransmissionInv(port, delivered);
      PutOnAir(delivered);
      if sender.senderState == Idle || !queuedTelemetryValid {
        HandleSendTelemetryResponse();
      } else {
        telemetryAckArmed, slot := true, Some(queuedTelemetry);
        port := port.(armed := true, slot := port.queued);
      }
    }

    /** The acknowledgement in an RC packet is the confirm bit of that moment. */
    method ProcessRcPacket()
      requires Valid()
      modifies this, sender
      ensures Valid() && port == PortStep(old(port), RcPacket)
    {
      RcInv(port);
      if telemetryAckArmed {
        var offset, state, expected := sender.currentOffset, sender.senderState, sender.telemetryConfirmExpectedValue;
        OfferedAgain(port);
        sender.ConfirmCurrentPayload(receiver.telemetryConfirm);
        port := port.(y := Step(port.y, Acknowledge));
        if offset != sender.currentOffset || state != sender.senderState ||
           expected != sender.telemetryConfirmExpectedValue {
          HandleSendTelemetryResponse();
        }
      }
    }

    /** The transmitter's main loop takes a finished message out of the buffer: exactly the
        bytes of one that was submitted, later than any taken before. */
    method TakeFinishedData() returns (taken: Option<Message>)
      requires Valid()
      modifies this, receiver
      ensures Valid() && receiver.data == old(receiver.data) && port == PortStep(old(port), Taken)
      ensures taken.Some? <==> old(receiver.finishedData)
      ensures taken.Some? ==>
        && port.y.consumed == old(port.y.consumed) + [Last(old(port.y.completed))] && Increasing(port.y.consumed)
        && 0 <= Last(port.y.consumed) < |port.y.submitted|
        && Holds(taken.value, port.y.submitted[Last(port.y.consumed)])
    {
      TakenIsSubmitted(port);
      taken := None;
      if receiver.finishedData {
        taken := Some(receiver.data[..]);
      }
      receiver.UnlockData();
      port := PortStep(port, Taken);
    }

    /** `updateTelemetryBurst` */
    method UpdateTelemetryBurst(tlmDenom: uint8, burstMax: uint8)
      requires Valid() && burstMax > 0
      modifies this, sender
      ensures Valid() && port == PortStep(old(port), Rate(sender.maxWaitCount, burstMax))
    {
      telemetryBurstMax := burstMax;
      sender.UpdateTelemetryRate(tlmDenom, burstMax);
      OtherStepInv(port, Rate(sender.maxWaitCount, burstMax));
      port := PortStep(port, Rate(sender.maxWaitCount, burstMax));
    }

    /** `SetRFLinkRate` drops the prepared packet. The invariant survives when the next one
        keeps the bytes of a taken chunk; `ReconfigureCorruptsMessage` shows what happens
        otherwise. */
    method SetRfLinkRate()
      requires Valid()
      modifies this
      ensures Agrees() && port == PortStep(old(port), Reconfigure)
      ensures SafeNext(old(port)) ==> Valid()
    {
      if SafeNext(port) {
        OtherStepInv(port, Reconfigure);
      }
      queuedTelemetryValid, telemetryAckArmed, slot := false, false, None;
      port := PortStep(port, Reconfigure);
    }
  }

  lemma TakenIsSubmitted(p: Port)
    requires PortInv(p)
    ensures PortInv(PortStep(p, Taken))
    ensures var y := PortStep(p, Taken).y;
            p.y.r.finished ==>
              && p.y.completed != [] && y.consumed == p.y.consumed + [Last(p.y.completed)] && Increasing(y.consumed)
              && 0 <= Last(y.consumed) < |y.submitted| && Holds(p.y.r.data, y.submitted[Last(y.consumed)])
  {
    ConsumeInv(p.y);
    TakenStaysPrepared(p);
  }

  /** While a packet is prepared, the chunk last offered is part of the message. */
  lemma OfferedAgain(p: Port)
    requires PreparedInv(p) && p.armed
    ensures OnOffer(p.y.s)
  {
  }
}
