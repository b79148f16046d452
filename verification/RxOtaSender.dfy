/** The transmitter's sender of receiver firmware (rx_ota_sender.c): handshake, upgrade
    packets, resends, finish. The radio and the flash are outcomes of each step. */
module RxOtaSender {
  import opened RxOtaMeta
  import opened Widths

  const PAYLOAD_LEN := 512
  const BURN_RESPONSE_LEN := 3
  const BURN_RESPONSE_RESEND := 2
  const BURN_RESPONSE_FINISH := 3
  const UPGRADE_BCN_SLOT := 0
  const UPGRADE_TX_SLOT := 1
  const HANDSHAKE_REQ_TIMEOUT := 50
  const HANDSHAKE_RSP_TIMEOUT_MIN := 35
  const HANDSHAKE_RSP_TIMEOUT_STEP := 5
  const HANDSHAKE_ACK_TIMEOUT := 1000
  const UPGRADE_TIMEOUT := 2000

  datatype State =
    | Idle | WaitHandshakeTx | WaitHandshakeResponse | WaitAckTx
    | WaitUpgradeBcn | Sending | WaitFinish
    | Done | Failed | VersionSame

  /** One upgrade packet handed to the radio. */
  datatype Packet = Packet(index: uint16, payload: seq<uint8>)

  /** The clock, and what each driver call reports if it is made. */
  datatype Env = Env(now: uint32, slotInitOk: bool, slotSetOk: bool, openOk: bool, sendOk: bool, readOk: bool)

  /** `Tk86xxCheckStatus` */
  datatype Irq = NoIrq | TxDone(slot: uint8) | RxDone(slot: uint8, dataSlot: bool, data: seq<uint8>) | OtherIrq

  datatype Sender = Sender(
    state: State, meta: Meta, terminalId: seq<uint8>, next: uint16, total: uint16, deadline: uint32,
    attempt: uint8, handshakeInitialized: bool, firstPacketQueued: bool, sent: seq<Packet>)

  predicate Active(s: Sender) {
    !s.state.Idle? && !s.state.Done? && !s.state.Failed? && !s.state.VersionSame?
  }

  function TotalPackets(m: Meta): (n: nat) { (m.firmwareLen as int + PAYLOAD_LEN - 1) / PAYLOAD_LEN }

  /** How many bytes of packet `index` come from the image. */
  function ReadLen(m: Meta, index: nat): (n: nat)
    requires index >= 1
    ensures n <= PAYLOAD_LEN && (n > 0 ==> (index - 1) * PAYLOAD_LEN + n <= m.firmwareLen)
  {
    var offset := (index - 1) * PAYLOAD_LEN;
    var remaining := if offset < m.firmwareLen then m.firmwareLen as int - offset else 0;
    if remaining > PAYLOAD_LEN then PAYLOAD_LEN else remaining
  }

  /** The flash is a byte map; the image is read where the staging region is. */
  type Flash = nat -> uint8

  function Slice(flash: Flash, from: nat, n: nat): (s: seq<uint8>)
    ensures |s| == n
  {
    seq(n, i requires 0 <= i < n => flash(from + i))
  }

  function Image(flash: Flash, m: Meta): (s: seq<uint8>) { Slice(flash, m.imageOffset, m.firmwareLen) }

  function Payload(flash: Flash, m: Meta, index: nat): (p: seq<uint8>)
    requires index >= 1
    ensures |p| == PAYLOAD_LEN
  {
    var n := ReadLen(m, index);
    Slice(flash, m.imageOffset + (index - 1) * PAYLOAD_LEN, n) + seq(PAYLOAD_LEN - n, _ => 0xFF)
  }

  /** `sendPacket` */
  function SendPacket(flash: Flash, s: Sender, index: uint16, env: Env): (r: (Sender, bool)) {
    if index == 0 || index > s.total || ReadLen(s.meta, index) == 0 then (s, false)
    else if !env.readOk || !env.sendOk then (s, false)
    else
      (s.(sent := s.sent + [Packet(index, Payload(flash, s.meta, index))],
          deadline := Wrap32(env.now + UPGRADE_TIMEOUT)), true)
  }

  function Fail(s: Sender): Sender { s.(state := Failed, handshakeInitialized := false) }

  function ContinueAfterPacketSend(s: Sender): Sender {
    s.(state := if s.next > s.total then WaitFinish else Sending)
  }

  /** `sendNextPacket` */
  function SendNextPacket(flash: Flash, s: Sender, env: Env): Sender {
    if s.next > s.total then s.(state := WaitFinish, deadline := Wrap32(env.now + UPGRADE_TIMEOUT))
    else
      var (s1, ok) := SendPacket(flash, s, s.next, env);
      if !ok then Fail(s1) else ContinueAfterPacketSend(s1.(next := Wrap16(s1.next + 1)))
  }

  /** `handleBurnResponse` */
  function HandleBurnResponse(flash: Flash, s: Sender, data: seq<uint8>, env: Env): Sender {
    if |data| != BURN_RESPONSE_LEN then s
    else if data[2] == BURN_RESPONSE_RESEND then
      var (s1, ok) := SendPacket(flash, s, data[0] as int + 0x100 * data[1] as int, env);
      if !ok then Fail(s1) else ContinueAfterPacketSend(s1)
    else if data[2] == BURN_RESPONSE_FINISH then s.(state := Done, handshakeInitialized := false)
    else s
  }

  /** `sendHandshakeRequest` */
  function SendHandshakeRequest(s: Sender, env: Env): (r: (Sender, bool)) {
    if !s.handshakeInitialized && !env.slotInitOk then (s, false)
    else if s.handshakeInitialized && !env.slotSetOk then (s, false)
    else if !env.sendOk then (s.(handshakeInitialized := true), false)
    else
      (s.(handshakeInitialized := true, attempt := Wrap8(s.attempt + 1),
          deadline := Wrap32(env.now + HANDSHAKE_REQ_TIMEOUT), state := WaitHandshakeTx), true)
  }

  /** `waitHandshakeResponse`, with the failure of its caller */
  function AwaitResponse(s: Sender, env: Env): Sender {
    if !env.slotSetOk || !env.openOk then Fail(s)
    else
      s.(deadline := Wrap32(env.now + HANDSHAKE_RSP_TIMEOUT_MIN + s.attempt % 4 * HANDSHAKE_RSP_TIMEOUT_STEP),
         state := WaitHandshakeResponse)
  }

  /** `sendHandshakeAck`, with the failure of its caller */
  function SendHandshakeAck(s: Sender, env: Env): Sender {
    if !env.slotSetOk || !env.sendOk then Fail(s)
    else s.(deadline := Wrap32(env.now + HANDSHAKE_ACK_TIMEOUT), state := WaitAckTx)
  }

  /** `initUpgradeSlots`, with the failure of its caller */
  function InitUpgradeSlots(flash: Flash, s: Sender, env: Env): Sender {
    var s0 := s.(handshakeInitialized := false);
    if !env.slotInitOk then Fail(s0)
    else
      var (s1, ok) := SendPacket(flash, s0.(next := 1, firstPacketQueued := false), 1, env);
      if !ok then Fail(s1)
      else s1.(next := 2, firstPacketQueued := true, state := WaitUpgradeBcn)
  }

  function RequestOrFail(s: Sender, env: Env): Sender {
    var (s1, ok) := SendHandshakeRequest(s, env);
    if ok then s1 else Fail(s1)
  }

  function Begin(s: Sender, meta: Meta): Sender {
    s.(meta := meta, total := Wrap16(TotalPackets(meta)), attempt := 0, handshakeInitialized := false, sent := [])
  }

  /** `RxOtaSender_Start` */
  function Start(s: Sender, env: Env, meta: MetaResult): Sender {
    if Active(s) then s
    else if meta.Rejected? then s.(state := Failed)
    else
      var begun := Begin(s, meta.meta);
      if begun.total == 0 then begun.(state := Failed) else RequestOrFail(begun, env)
  }

  function OnTimeout(s: Sender, env: Env): Sender {
    if s.state.WaitHandshakeTx? || s.state.WaitHandshakeResponse? then SendHandshakeRequest(s, env).0
    else Fail(s)
  }

  function OnTxDone(flash: Flash, s: Sender, slot: uint8, env: Env): Sender {
    if s.state.WaitHandshakeTx? then AwaitResponse(s, env)
    else if s.state.WaitAckTx? then InitUpgradeSlots(flash, s, env)
    else if s.state.Sending? && slot == UPGRADE_TX_SLOT then SendNextPacket(flash, s, env)
    else s
  }

  function OnHandshakeResponse(s: Sender, data: seq<uint8>, env: Env): Sender {
    if |data| != 8 then s
    else if data == seq(8, _ => 0xFF) then s.(state := VersionSame, handshakeInitialized := false)
    else SendHandshakeAck(s.(terminalId := data), env)
  }

  function OnRxDone(flash: Flash, s: Sender, slot: uint8, dataSlot: bool, data: seq<uint8>, env: Env): Sender {
    if s.state.WaitHandshakeResponse? then OnHandshakeResponse(s, data, env)
    else if s.state.WaitUpgradeBcn? || s.state.Sending? then
      if !dataSlot && slot == UPGRADE_BCN_SLOT then
        if s.state.WaitUpgradeBcn? && s.firstPacketQueued then s.(state := Sending) else s
      else HandleBurnResponse(flash, s, data, env)
    else if s.state.WaitFinish? && dataSlot then HandleBurnResponse(flash, s, data, env)
    else s
  }

  /** `RxOtaSender_Update` */
  function Update(flash: Flash, s: Sender, irq: Irq, env: Env): Sender {
    if !Active(s) then s
    else
      match irq
      case NoIrq => if Reached(env.now, s.deadline) then OnTimeout(s, env) else s
      case TxDone(slot) => OnTxDone(flash, s, slot, env)
      case RxDone(slot, dataSlot, data) => OnRxDone(flash, s, slot, dataSlot, data, env)
      case OtherIrq => s
  }

  /** `RxOtaSender_GetProgressPercent` */
  function Progress(s: Sender): (p: uint8)
    ensures p <= 100
  {
    if s.state.Done? || s.state.VersionSame? then 100
    else if s.state.Idle? || s.state.Failed? || s.total == 0 then 0
    else if s.state.WaitHandshakeTx? || s.state.WaitHandshakeResponse? || s.state.WaitAckTx? then 0
    else
      var done := if s.next > 0 then s.next as int - 1 else 0;
      var sent := if done > s.total then s.total as int else done;
      Percent(sent, s.total);
      sent * 100 / s.total
  }

  lemma Percent(a: int, b: int)
    requires 0 <= a <= b && b > 0
    ensures 0 <= a * 100 / b <= 100
  {
    assert a * 100 <= 100 * b;
    assert (100 * b) / b == 100;
    DivMono(a * 100, 100 * b, b);
  }

  lemma DivMono(x: int, y: int, b: int)
    requires 0 <= x <= y && b > 0
    ensures 0 <= x / b <= y / b
  {
    var k := x / b - y / b;
    assert x == b * (x / b) + x % b && y == b * (y / b) + y % b;
    assert b * k == b * (x / b) - b * (y / b);
    BelowOne(b, k);
  }

  lemma BelowOne(b: int, k: int)
    requires b > 0 && b * k < b
    ensures k < 1
  {
  }
}
