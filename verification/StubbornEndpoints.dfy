/** The two ends of the stubborn (alternating-bit, chunked) transfer.
    `SenderState` and `ReceiverState` are the fields of the two C structures; the
    functions are what each call does to them, and the classes below carry the
    calls out in place. */
module StubbornEndpoints {
  import opened Widths

  const MAX_MISSED_PACKETS := 20
  const INITIAL_MAX_WAIT := 80
  const MAX_PATIENCE := 10200

  type Message = m: seq<uint8> | |m| <= 255

  datatype Phase = Idle | SendPending | Sending | WaitUntilNextConfirm | Resync | ResyncThenSend

  datatype SenderState = SenderState(
    data: Message,
    currentOffset: uint8,
    bytesLastPayload: uint8,
    currentPackage: uint8,
    expected: bool,
    waitCount: uint16,
    maxWaitCount: uint16,
    maxPackageIndex: uint8,
    phase: Phase)

  datatype ReceiverState = ReceiverState(
    data: Message,
    finished: bool,
    currentOffset: uint8,
    currentPackage: uint8,
    confirm: bool,
    maxPackageIndex: uint8)

  /** What goes over the air: the packet buffer is zeroed before the chunk is copied
      into it and the receiver is always handed the whole payload field. */
  datatype Packet = Packet(index: uint8, payload: Message)

  function SenderReset(s: SenderState): SenderState {
    s.(bytesLastPayload := 0, currentOffset := 0, currentPackage := 1, expected := true,
       waitCount := 0, maxWaitCount := INITIAL_MAX_WAIT, phase := Idle)
  }

  function SetData(s: SenderState, m: Message): SenderState {
    s.(data := m, currentOffset := 0, currentPackage := 1, waitCount := 0,
       phase := if s.phase.Idle? then SendPending else ResyncThenSend)
  }

  /** Bytes of the current chunk when the payload field holds `maxLen` bytes. */
  function ChunkLength(s: SenderState, maxLen: uint8): uint8 {
    Min(Wrap8(|s.data| - s.currentOffset), maxLen)
  }

  function GetPayload(s: SenderState, maxLen: uint8): (out: (SenderState, Packet))
    requires s.currentOffset <= |s.data|
    ensures out.0 == s.(bytesLastPayload := out.0.bytesLastPayload, phase := out.0.phase)
    ensures s.currentOffset + out.0.bytesLastPayload <= |s.data|
    ensures |out.1.payload| == maxLen
  {
    match s.phase
    case Resync => (s.(bytesLastPayload := 0), Packet(s.maxPackageIndex, Zeros(maxLen)))
    case ResyncThenSend => (s.(bytesLastPayload := 0), Packet(s.maxPackageIndex, Zeros(maxLen)))
    case SendPending => SendChunk(s, maxLen)
    case Sending => SendChunk(s, maxLen)
    case Idle => (s.(bytesLastPayload := 0), Packet(0, Zeros(maxLen)))
    case WaitUntilNextConfirm => (s.(bytesLastPayload := 0), Packet(0, Zeros(maxLen)))
  }

  function SendChunk(s: SenderState, maxLen: uint8): (SenderState, Packet)
    requires s.currentOffset <= |s.data|
  {
    var n := ChunkLength(s, maxLen);
    var last := s.currentPackage > 1 && s.currentOffset + n >= |s.data|;
    (s.(bytesLastPayload := n, phase := Sending),
     Packet(if last then 0 else s.currentPackage,
            s.data[s.currentOffset..s.currentOffset + n] + Zeros(maxLen - n)))
  }

  /** A confirm bit that is not the awaited one; too many in a row give up. */
  function MissedConfirm(s: SenderState, confirm: bool): SenderState {
    var s' := s.(waitCount := Wrap16(s.waitCount + 1));
    if s'.waitCount > s.maxWaitCount then s'.(expected := !confirm, phase := Resync) else s'
  }

  function Confirm(s: SenderState, confirm: bool): (s': SenderState)
    ensures s'.data == s.data && s'.maxPackageIndex == s.maxPackageIndex && s'.maxWaitCount == s.maxWaitCount
    ensures s'.currentOffset == s.currentOffset || s'.currentOffset == Wrap8(s.currentOffset + s.bytesLastPayload)
  {
    match s.phase
    case Sending =>
      if confirm != s.expected then MissedConfirm(s, confirm)
      else
        var offset := Wrap8(s.currentOffset + s.bytesLastPayload);
        s.(currentOffset := offset,
           phase := if offset < |s.data| then Sending
                    else if s.currentPackage == 1 then WaitUntilNextConfirm else Idle,
           currentPackage := Wrap8(s.currentPackage + 1),
           expected := !s.expected,
           waitCount := 0)
    case Resync =>
      if confirm == s.expected then s.(phase := Idle, expected := !confirm) else s
    case ResyncThenSend =>
      if confirm == s.expected then s.(phase := Sending, expected := !confirm) else s
    case WaitUntilNextConfirm =>
      if confirm == s.expected then s.(phase := Idle, expected := !confirm)
      else MissedConfirm(s, confirm)
    case SendPending => s
    case Idle => s
  }

  function UpdateRate(s: SenderState, tlmRatio: uint8, tlmBurst: uint8): SenderState
    requires tlmBurst > 0
  {
    s.(maxWaitCount := Wrap16(tlmRatio * (1 + tlmBurst) / tlmBurst * MAX_MISSED_PACKETS))
  }

  /** No ratio and burst wrap the 16-bit limit: it is twenty times at most twice the ratio. */
  lemma PatienceIsBounded(s: SenderState, tlmRatio: uint8, tlmBurst: uint8)
    requires tlmBurst > 0
    ensures var between := tlmRatio * (1 + tlmBurst) / tlmBurst;
            && tlmRatio <= between <= 2 * tlmRatio
            && UpdateRate(s, tlmRatio, tlmBurst).maxWaitCount == between * MAX_MISSED_PACKETS <= MAX_PATIENCE
  {
    var between := tlmRatio * (1 + tlmBurst) / tlmBurst;
    QuotientBetween(tlmRatio, tlmBurst);
    assert between * MAX_MISSED_PACKETS <= 2 * 255 * MAX_MISSED_PACKETS;
  }

  lemma QuotientBetween(a: nat, b: nat)
    requires b > 0
    ensures a <= a * (1 + b) / b <= 2 * a
  {
    Division(a * (1 + b), b);
    Distributed(a, b);
    Below(a, a * (1 + b) / b + 1, b);
    Below(a * (1 + b) / b, 2 * a + 1, b);
  }

  lemma Division(n: nat, b: nat)
    requires b > 0
    ensures n / b * b <= n < (n / b + 1) * b
  {
  }

  lemma Distributed(a: nat, b: nat)
    requires b > 0
    ensures a * b <= a * (1 + b) < (2 * a + 1) * b
  {
    assert (2 * a + 1) * b == a * b + a * b + b;
    Grows(a, b);
  }

  lemma Grows(a: nat, b: nat)
    requires b > 0
    ensures a <= a * b
  {
  }

  lemma Below(x: int, y: int, b: int)
    requires b > 0 && x * b < y * b
    ensures x < y
  {
  }

  /** What every call keeps: the offset inside the message, and a patience the counter can exceed. */
  predicate SenderKept(s: SenderState) {
    s.currentOffset <= |s.data| && s.maxWaitCount <= MAX_PATIENCE
  }

  /** The chunk last offered is part of the message: so it is from `GetCurrentPayload` on
      until an acknowledgement moves the sender or the message is replaced. */
  predicate OnOffer(s: SenderState) {
    s.currentOffset + s.bytesLastPayload <= |s.data|
  }

  function ReceiverReset(r: ReceiverState): ReceiverState {
    r.(currentPackage := 1, currentOffset := 0, confirm := false)
  }

  function SetBuffer(r: ReceiverState, buffer: Message): ReceiverState {
    r.(data := buffer, currentPackage := 1, currentOffset := 0, finished := false)
  }

  function Unlock(r: ReceiverState): ReceiverState {
    if r.finished then r.(currentPackage := 1, currentOffset := 0, finished := false) else r
  }

  /** `payload` written over `data` from `offset` on, as far as it fits. */
  function Overlay(data: Message, offset: uint8, payload: Message): (d: Message)
    requires offset <= |data|
    ensures |d| == |data|
  {
    var n := Min(|data| - offset, |payload|);
    data[..offset] + payload[..n] + data[offset + n..]
  }

  function AcceptChunk(r: ReceiverState, payload: Message): ReceiverState
    requires r.currentOffset <= |r.data|
  {
    r.(data := Overlay(r.data, r.currentOffset, payload),
       currentPackage := Wrap8(r.currentPackage + 1),
       currentOffset := r.currentOffset + Min(|r.data| - r.currentOffset, |payload|),
       confirm := !r.confirm)
  }

  /** The first chunk again, byte for byte: an acknowledgement was lost. */
  predicate RepeatsFirstChunk(r: ReceiverState, payload: Message) {
    r.currentPackage == 2 && r.currentOffset == |payload| && |payload| <= |r.data| &&
    r.data[..|payload|] == payload
  }

  function Receive(r: ReceiverState, p: Packet): (r': ReceiverState)
    requires r.currentOffset <= |r.data|
    ensures |r'.data| == |r.data| && r'.currentOffset <= |r'.data| && r'.maxPackageIndex == r.maxPackageIndex
  {
    if p.index == r.maxPackageIndex then
      r.(confirm := !r.confirm, currentPackage := 1, currentOffset := 0, finished := false)
    else if r.finished then r
    else if p.index == 0 && r.currentPackage > 1 then
      AcceptChunk(r.(finished := true), p.payload)
    else if p.index == r.currentPackage then
      AcceptChunk(r, p.payload)
    else if p.index == 1 && r.currentPackage > 1 then
      if RepeatsFirstChunk(r, p.payload) then r
      else AcceptChunk(r.(currentPackage := 1, currentOffset := 0), p.payload)
    else r
  }

  /** The index travels in a few bits, all ones in the limit: five bits and 31. */
  function Masked(index: uint8, limit: uint8): (i: uint8)
    ensures i <= limit && (index <= limit ==> i == index) && (index == limit + 1 ==> i == 0)
  {
    Remainders(index, limit + 1);
    index % (limit + 1)
  }

  lemma Remainders(x: nat, m: nat)
    requires m > 0
    ensures 0 <= x % m < m && (x < m ==> x % m == x) && (x == m ==> x % m == 0)
  {
  }

  /** What the receiver makes of a packet that the sender prepared. */
  function Hear(r: ReceiverState, p: Packet): (r': ReceiverState)
    requires r.currentOffset <= |r.data|
    ensures |r'.data| == |r.data| && r'.currentOffset <= |r'.data| && r'.maxPackageIndex == r.maxPackageIndex
  {
    Receive(r, p.(index := Masked(p.index, r.maxPackageIndex)))
  }

  class StubbornSender {
    var data: Message
    var currentOffset: uint8
    var bytesLastPayload: uint8
    var currentPackage: uint8
    var telemetryConfirmExpectedValue: bool
    var waitCount: uint16
    var maxWaitCount: uint16
    var maxPackageIndex: uint8
    var senderState: Phase

    function View(): SenderState
      reads this
    {
      SenderState(data, currentOffset, bytesLastPayload, currentPackage,
                  telemetryConfirmExpectedValue, waitCount, maxWaitCount, maxPackageIndex, senderState)
    }

    predicate Valid()
      reads this
    {
      SenderKept(View())
    }

    /** Static storage; `StubbornSender_Init` sets function pointers only. */
    constructor ()
      ensures Valid() && View() == SenderState([], 0, 0, 0, false, 0, 0, 0, Idle)
    {
      data, currentOffset, bytesLastPayload, currentPackage := [], 0, 0, 0;
      telemetryConfirmExpectedValue, waitCount, maxWaitCount := false, 0, 0;
      maxPackageIndex, senderState := 0, Idle;
    }

    method ResetState()
      modifies this
      ensures Valid() && View() == SenderReset(old(View()))
    {
      bytesLastPayload, currentOffset, currentPackage := 0, 0, 1;
      telemetryConfirmExpectedValue := true;
      waitCount, maxWaitCount := 0, INITIAL_MAX_WAIT;
      senderState := Idle;
    }

    method SetMaxPackageIndex(maxIndex: uint8)
      modifies this
      ensures old(Valid()) || maxIndex != old(maxPackageIndex) ==> Valid()
      ensures View() == if maxIndex == old(maxPackageIndex) then old(View())
                        else SenderReset(old(View()).(maxPackageIndex := maxIndex))
    {
      if maxPackageIndex != maxIndex {
        maxPackageIndex := maxIndex;
        ResetState();
      }
    }

    method SetDataToTransmit(dataToTransmit: Message)
      modifies this
      ensures View() == SetData(old(View()), dataToTransmit) && (old(Valid()) ==> Valid())
    {
      data := dataToTransmit;
      currentOffset, currentPackage, waitCount := 0, 1, 0;
      senderState := if senderState == Idle then SendPending else ResyncThenSend;
    }

    /** `outData` comes back as the zeroed payload field with the chunk copied in. */
    method GetCurrentPayload(maxLen: uint8) returns (packageIndex: uint8, outData: Message)
      requires currentOffset <= |data|
      modifies this
      ensures (View(), Packet(packageIndex, outData)) == GetPayload(old(View()), maxLen)
      ensures OnOffer(View()) && (old(Valid()) ==> Valid())
    {
      outData := Zeros(maxLen);
      bytesLastPayload := 0;
      match senderState {
        case Resync => packageIndex := maxPackageIndex;
        case ResyncThenSend => packageIndex := maxPackageIndex;
        case Idle => packageIndex := 0;
        case WaitUntilNextConfirm => packageIndex := 0;
        case _ =>
          packageIndex, outData := NextChunk(maxLen);
      }
    }

    method NextChunk(maxLen: uint8) returns (packageIndex: uint8, outData: Message)
      requires currentOffset <= |data|
      modifies this`senderState, this`bytesLastPayload
      ensures (View(), Packet(packageIndex, outData)) == SendChunk(old(View()), maxLen)
    {
      senderState := Sending;
      bytesLastPayload := Min(Wrap8(|data| - currentOffset), maxLen);
      if currentPackage > 1 && currentOffset + bytesLastPayload >= |data| {
        packageIndex := 0;
      } else {
        packageIndex := currentPackage;
      }
      outData := data[currentOffset..currentOffset + bytesLastPayload] + Zeros(maxLen - bytesLastPayload);
    }

    method ConfirmCurrentPayload(telemetryConfirmValue: bool)
      modifies this
      ensures View() == Confirm(old(View()), telemetryConfirmValue)
      ensures old(Valid() && OnOffer(View())) ==> Valid()
      ensures old(Valid() && !senderState.Sending?) ==> Valid()
    {
      var nextSenderState := senderState;
      if senderState == Sending {
        if telemetryConfirmValue != telemetryConfirmExpectedValue {
          waitCount := Wrap16(waitCount + 1);
          if waitCount > maxWaitCount {
            telemetryConfirmExpectedValue := !telemetryConfirmValue;
            nextSenderState := Resync;
          }
        } else {
          currentOffset := Wrap8(currentOffset + bytesLastPayload);
          if currentOffset >= |data| {
            nextSenderState := if currentPackage == 1 then WaitUntilNextConfirm else Idle;
          }
          currentPackage := Wrap8(currentPackage + 1);
          telemetryConfirmExpectedValue := !telemetryConfirmExpectedValue;
          waitCount := 0;
        }
      } else if senderState == Resync || senderState == ResyncThenSend || senderState == WaitUntilNextConfirm {
        if telemetryConfirmValue == telemetryConfirmExpectedValue {
          nextSenderState := if senderState == ResyncThenSend then Sending else Idle;
          telemetryConfirmExpectedValue := !telemetryConfirmValue;
        } else if senderState == WaitUntilNextConfirm {
          waitCount := Wrap16(waitCount + 1);
          if waitCount > maxWaitCount {
            telemetryConfirmExpectedValue := !telemetryConfirmValue;
            nextSenderState := Resync;
          }
        }
      }
      senderState := nextSenderState;
    }

    method UpdateTelemetryRate(tlmRatio: uint8, tlmBurst: uint8)
      requires tlmBurst > 0
      modifies this
      ensures View() == UpdateRate(old(View()), tlmRatio, tlmBurst) && (old(currentOffset <= |data|) ==> Valid())
    {
      PatienceIsBounded(View(), tlmRatio, tlmBurst);
      var packsBetween := tlmRatio * (1 + tlmBurst) / tlmBurst;
      maxWaitCount := Wrap16(packsBetween * MAX_MISSED_PACKETS);
    }
  }

  class StubbornReceiver {
    var data: array<uint8>
    var finishedData: bool
    var currentOffset: uint8
    var currentPackage: uint8
    var telemetryConfirm: bool
    var maxPackageIndex: uint8

    ghost predicate Valid()
      reads this
    {
      data.Length <= 255 && currentOffset <= data.Length
    }

    ghost function View(): ReceiverState
      requires Valid()
      reads this, data
    {
      ReceiverState(data[..], finishedData, currentOffset, currentPackage, telemetryConfirm, maxPackageIndex)
    }

    /** `StubbornReceiver_Init` on static storage: no buffer yet. */
    constructor ()
      ensures Valid() && fresh(data) && View() == ReceiverState([], false, 0, 1, false, 0)
    {
      data, finishedData, currentOffset, currentPackage := new uint8[0], false, 0, 1;
      telemetryConfirm, maxPackageIndex := false, 0;
    }

    method ResetState()
      requires Valid()
      modifies this
      ensures Valid() && data == old(data) && View() == ReceiverReset(old(View()))
    {
      currentPackage, currentOffset, telemetryConfirm := 1, 0, false;
    }

    method SetMaxPackageIndex(maxIndex: uint8)
      requires Valid()
      modifies this
      ensures Valid() && data == old(data)
      ensures View() == if maxIndex == old(maxPackageIndex) then old(View())
                        else ReceiverReset(old(View())).(maxPackageIndex := maxIndex)
    {
      if maxPackageIndex != maxIndex {
        maxPackageIndex := maxIndex;
        ResetState();
      }
    }

    method SetDataToReceive(buffer: array<uint8>)
      requires Valid() && buffer.Length <= 255
      modifies this
      ensures Valid() && data == buffer && View() == SetBuffer(old(View()), buffer[..])
    {
      data := buffer;
      currentPackage, currentOffset, finishedData := 1, 0, false;
    }

    method ReceiveData(packageIndex: uint8, receiveData: Message)
      requires Valid()
      modifies this, data
      ensures Valid() && data == old(data)
      ensures View() == Receive(old(View()), Packet(packageIndex, receiveData))
    {
      if packageIndex == maxPackageIndex {
        telemetryConfirm := !telemetryConfirm;
        currentPackage, currentOffset, finishedData := 1, 0, false;
        return;
      }
      if finishedData { return; }

      var acceptData := false;
      if packageIndex == 0 && currentPackage > 1 {
        acceptData, finishedData := true, true;
      } else if packageIndex == currentPackage {
        acceptData := true;
      } else if packageIndex == 1 && currentPackage > 1 {
        if currentPackage == 2 && currentOffset == |receiveData| &&
           (|receiveData| == 0 || data[..|receiveData|] == receiveData) {
          return;
        }
        currentPackage, currentOffset := 1, 0;
        acceptData := true;
      }

      if acceptData {
        CopyChunk(receiveData);
      }
    }

    method CopyChunk(receiveData: Message)
      requires Valid()
      modifies this, data
      ensures Valid() && data == old(data) && View() == AcceptChunk(old(View()), receiveData)
    {
      var remaining := Wrap8(data.Length - currentOffset);
      var len := if remaining < |receiveData| then remaining else |receiveData|;
      forall k | 0 <= k < len {
        data[currentOffset + k] := receiveData[k];
      }
      assert data[..] == Overlay(old(data[..]), currentOffset, receiveData);
      currentPackage := Wrap8(currentPackage + 1);
      currentOffset := currentOffset + len;
      telemetryConfirm := !telemetryConfirm;
    }

    method UnlockData()
      requires Valid()
      modifies this
      ensures Valid() && data == old(data) && View() == Unlock(old(View()))
    {
      if finishedData {
        currentPackage, currentOffset, finishedData := 1, 0, false;
      }
    }
  }
}
