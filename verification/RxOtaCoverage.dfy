/** What every run of the firmware sender keeps: the packets it has counted were handed to
    the radio, with the right bytes, read from the staging region; when it waits for the
    receiver to finish, what it sent is the whole image. */
module RxOtaCoverage {
  import opened RxOtaMeta
  import opened RxOtaSender
  import opened Widths

  const META_ADDR := 0x7_D000

  predicate Upgrading(s: Sender) { s.state.WaitUpgradeBcn? || s.state.Sending? || s.state.WaitFinish? }

  predicate WasSent(sent: seq<Packet>, i: nat) {
    exists k :: 0 <= k < |sent| && sent[k].index == i
  }

  predicate PacketIsRight(flash: Flash, s: Sender, p: Packet) {
    1 <= p.index <= s.total && p.payload == Payload(flash, s.meta, p.index)
  }

  ghost predicate Inv(flash: Flash, s: Sender) {
    && (forall k :: 0 <= k < |s.sent| ==> PacketIsRight(flash, s, s.sent[k]))
    && (Active(s) ==> s.meta.InRegion() && s.total == TotalPackets(s.meta))
    && (Upgrading(s) ==> 1 <= s.next <= s.total + 1 && forall i :: 1 <= i < s.next ==> WasSent(s.sent, i))
    && (s.state.WaitFinish? ==> s.next == s.total + 1)
  }

  lemma TotalIsSmall(m: Meta)
    requires m.InRegion()
    ensures 1 <= TotalPackets(m) <= 276
    ensures (TotalPackets(m) - 1) * PAYLOAD_LEN < m.firmwareLen <= TotalPackets(m) * PAYLOAD_LEN
  {
  }

  /** The bytes that `sendPacket` reads are part of the image, hence of the staging region,
      which ends before the metadata. */
  lemma ReadsStayInside(m: Meta, index: nat)
    requires m.InRegion() && 1 <= index <= TotalPackets(m)
    ensures 0 < ReadLen(m, index) <= PAYLOAD_LEN
    ensures var from := m.imageOffset + (index - 1) * PAYLOAD_LEN;
            IMAGE_START <= from && from + ReadLen(m, index) <= IMAGE_START + m.firmwareLen
                <= IMAGE_START + IMAGE_MAX < META_ADDR
  {
    TotalIsSmall(m);
  }

  // ----- Steps --------------------------------------------------------------------

  /** What a call of sendPacket changes. */
  lemma SendPacketKeeps(flash: Flash, s: Sender, index: uint16, env: Env)
    requires Inv(flash, s)
    ensures var (s1, ok) := SendPacket(flash, s, index, env);
            && s1 == s.(sent := s1.sent, deadline := s1.deadline)
            && (forall k :: 0 <= k < |s1.sent| ==> PacketIsRight(flash, s, s1.sent[k]))
            && (forall i :: WasSent(s.sent, i) ==> WasSent(s1.sent, i))
            && (ok ==> WasSent(s1.sent, index) && 1 <= index <= s.total)
            && (!ok ==> s1.sent == s.sent)
  {
    var (s1, ok) := SendPacket(flash, s, index, env);
    forall i | WasSent(s.sent, i) ensures WasSent(s1.sent, i) {
      var k :| 0 <= k < |s.sent| && s.sent[k].index == i;
      assert s1.sent[k].index == i;
    }
    if ok {
      assert s1.sent[|s.sent|].index == index;
    }
  }

  lemma SendNextPacketInv(flash: Flash, s: Sender, env: Env)
    requires Inv(flash, s) && s.state.Sending?
    ensures Inv(flash, SendNextPacket(flash, s, env))
  {
    TotalIsSmall(s.meta);
    if s.next <= s.total {
      SendPacketKeeps(flash, s, s.next, env);
      var (s1, ok) := SendPacket(flash, s, s.next, env);
      if ok {
        NextIsSent(flash, s, s1);
      }
    }
  }

  lemma NextIsSent(flash: Flash, s: Sender, s1: Sender)
    requires Inv(flash, s) && s.state.Sending? && s.next <= s.total
    requires s1 == s.(sent := s1.sent, deadline := s1.deadline) && WasSent(s1.sent, s.next)
    requires forall k :: 0 <= k < |s1.sent| ==> PacketIsRight(flash, s, s1.sent[k])
    requires forall i :: WasSent(s.sent, i) ==> WasSent(s1.sent, i)
    ensures Inv(flash, ContinueAfterPacketSend(s1.(next := Wrap16(s1.next + 1))))
  {
    TotalIsSmall(s.meta);
    assert forall k :: 0 <= k < |s1.sent| ==> PacketIsRight(flash, s1, s1.sent[k]);
  }

  /** Resends never change which packet comes next. */
  lemma BurnResponseInv(flash: Flash, s: Sender, data: seq<uint8>, env: Env)
    requires Inv(flash, s) && Upgrading(s)
    ensures var s' := HandleBurnResponse(flash, s, data, env);
            Inv(flash, s') && s'.next == s.next && s'.total == s.total && s'.meta == s.meta
  {
    if |data| == BURN_RESPONSE_LEN && data[2] == BURN_RESPONSE_RESEND {
      ResendInv(flash, s, data[0] as int + 0x100 * data[1] as int, env);
    }
  }

  lemma ResendInv(flash: Flash, s: Sender, index: uint16, env: Env)
    requires Inv(flash, s) && Upgrading(s)
    ensures var (s1, ok) := SendPacket(flash, s, index, env);
            var s' := if ok then ContinueAfterPacketSend(s1) else Fail(s1);
            Inv(flash, s') && s'.next == s.next && s'.total == s.total && s'.meta == s.meta
  {
    SendPacketKeeps(flash, s, index, env);
    var (s1, ok) := SendPacket(flash, s, index, env);
    StillSent(flash, s, s1);
  }

  /** The history may grow by right packets. */
  lemma StillSent(flash: Flash, s: Sender, s1: Sender)
    requires Inv(flash, s) && Upgrading(s) && s1 == s.(sent := s1.sent, deadline := s1.deadline)
    requires forall k :: 0 <= k < |s1.sent| ==> PacketIsRight(flash, s, s1.sent[k])
    requires forall i :: WasSent(s.sent, i) ==> WasSent(s1.sent, i)
    ensures Inv(flash, ContinueAfterPacketSend(s1)) && Inv(flash, Fail(s1))
  {
    TotalIsSmall(s.meta);
    assert forall k :: 0 <= k < |s1.sent| ==> PacketIsRight(flash, s1, s1.sent[k]);
  }

  lemma InitUpgradeSlotsInv(flash: Flash, s: Sender, env: Env)
    requires Inv(flash, s) && s.state.WaitAckTx?
    ensures Inv(flash, InitUpgradeSlots(flash, s, env))
  {
    TotalIsSmall(s.meta);
    SendPacketKeeps(flash, s.(handshakeInitialized := false, next := 1, firstPacketQueued := false), 1, env);
  }

  lemma TxDoneInv(flash: Flash, s: Sender, slot: uint8, env: Env)
    requires Inv(flash, s)
    ensures Inv(flash, OnTxDone(flash, s, slot, env))
  {
    if s.state.WaitAckTx? {
      InitUpgradeSlotsInv(flash, s, env);
    } else if s.state.Sending? {
      SendNextPacketInv(flash, s, env);
    }
  }

  lemma RxDoneInv(flash: Flash, s: Sender, slot: uint8, dataSlot: bool, data: seq<uint8>, env: Env)
    requires Inv(flash, s)
    ensures Inv(flash, OnRxDone(flash, s, slot, dataSlot, data, env))
  {
    if Upgrading(s) {
      BurnResponseInv(flash, s, data, env);
    }
  }

  lemma UpdateInv(flash: Flash, s: Sender, irq: Irq, env: Env)
    requires Inv(flash, s)
    ensures Inv(flash, Update(flash, s, irq, env))
  {
    if irq.TxDone? {
      TxDoneInv(flash, s, irq.slot, env);
    } else if irq.RxDone? {
      RxDoneInv(flash, s, irq.slot, irq.dataSlot, irq.data, env);
    }
  }

  lemma StartInv(flash: Flash, s: Sender, env: Env, meta: MetaResult)
    requires Inv(flash, s) && (meta.Accepted? ==> meta.meta.InRegion())
    ensures Inv(flash, Start(s, env, meta))
  {
    if meta.Accepted? {
      TotalIsSmall(meta.meta);
    }
  }

  // ----- Runs ---------------------------------------------------------------------

  datatype Event = StartRequested(env: Env, meta: MetaResult) | Polled(irq: Irq, env: Env)

  predicate EventIsSane(e: Event) {
    e.StartRequested? && e.meta.Accepted? ==> e.meta.meta.InRegion()
  }

  function Step(flash: Flash, s: Sender, e: Event): Sender {
    match e
    case StartRequested(env, meta) => Start(s, env, meta)
    case Polled(irq, env) => Update(flash, s, irq, env)
  }

  function Run(flash: Flash, s: Sender, es: seq<Event>): Sender
    decreases |es|
  {
    if es == [] then s else Step(flash, Run(flash, s, es[..|es| - 1]), es[|es| - 1])
  }

  function PowerUp(): Sender {
    Sender(Idle, Meta(0, 0, 0, 0, Zeros(4), Zeros(8)), Zeros(8), 0, 0, 0, 0, false, false, [])
  }

  lemma {:induction false} RunInv(flash: Flash, es: seq<Event>)
    requires forall i :: 0 <= i < |es| ==> EventIsSane(es[i])
    ensures Inv(flash, Run(flash, PowerUp(), es))
    decreases |es|
  {
    if es == [] {
    } else {
      var n := |es| - 1;
      RunInv(flash, es[..n]);
      var s := Run(flash, PowerUp(), es[..n]);
      match es[n] {
        case StartRequested(env, meta) => StartInv(flash, s, env, meta);
        case Polled(irq, env) => UpdateInv(flash, s, irq, env);
      }
    }
  }

  // ----- Coverage -----------------------------------------------------------------

  /** What a receiver has for packet `i`: the last payload sent under that number. */
  function Received(sent: seq<Packet>, i: nat): (p: seq<uint8>)
    requires WasSent(sent, i)
    ensures exists k :: 0 <= k < |sent| && sent[k].index == i && p == sent[k].payload
  {
    var last := sent[|sent| - 1];
    if last.index == i then last.payload
    else
      var rest := sent[..|sent| - 1];
      assert WasSent(rest, i) by {
        var k :| 0 <= k < |sent| && sent[k].index == i;
        assert rest[k].index == i;
      }
      Received(rest, i)
  }

  predicate SentUpTo(sent: seq<Packet>, n: nat) {
    forall i :: 1 <= i <= n ==> WasSent(sent, i)
  }

  /** Packets 1 to n put together. */
  function Reassembled(sent: seq<Packet>, n: nat): (s: seq<uint8>)
    requires SentUpTo(sent, n)
  {
    Joined(seq(n, i requires 0 <= i < n && SentUpTo(sent, n) => Received(sent, i + 1)))
  }

  function Joined(parts: seq<seq<uint8>>): (s: seq<uint8>) {
    if parts == [] then [] else Joined(parts[..|parts| - 1]) + parts[|parts| - 1]
  }

  /** `r` is the beginning of the image, as far as the image goes. */
  predicate BeginsImage(flash: Flash, m: Meta, r: seq<uint8>) {
    forall j :: 0 <= j < |r| && j < m.firmwareLen ==> r[j] == flash(m.imageOffset + j)
  }

  lemma PayloadContinues(flash: Flash, m: Meta, r: seq<uint8>, n: nat)
    requires n > 0 && |r| == (n - 1) * PAYLOAD_LEN && BeginsImage(flash, m, r)
    ensures BeginsImage(flash, m, r + Payload(flash, m, n))
  {
    var p := Payload(flash, m, n);
    forall j | 0 <= j < |r + p| && j < m.firmwareLen ensures (r + p)[j] == flash(m.imageOffset + j) {
      if j >= |r| {
        assert (r + p)[j] == p[j - |r|];
      }
    }
  }

  lemma ReceivedIsPayload(flash: Flash, s: Sender, i: nat)
    requires (forall k :: 0 <= k < |s.sent| ==> PacketIsRight(flash, s, s.sent[k])) && WasSent(s.sent, i)
    ensures i >= 1 && Received(s.sent, i) == Payload(flash, s.meta, i)
  {
    var k :| 0 <= k < |s.sent| && s.sent[k].index == i && Received(s.sent, i) == s.sent[k].payload;
    assert PacketIsRight(flash, s, s.sent[k]);
  }

  function AllPayloads(flash: Flash, m: Meta, n: nat): (s: seq<uint8>) {
    Joined(seq(n, i requires 0 <= i < n => Payload(flash, m, i + 1)))
  }

  lemma AllPayloadsGrow(flash: Flash, m: Meta, n: nat)
    requires n > 0
    ensures AllPayloads(flash, m, n) == AllPayloads(flash, m, n - 1) + Payload(flash, m, n)
  {
    var ps, qs := seq(n, i requires 0 <= i < n => Payload(flash, m, i + 1)),
                  seq(n - 1, i requires 0 <= i < n - 1 => Payload(flash, m, i + 1));
    assert ps[..n - 1] == qs && ps[n - 1] == Payload(flash, m, n);
  }

  lemma {:induction false} AllPayloadsBeginImage(flash: Flash, m: Meta, n: nat)
    ensures |AllPayloads(flash, m, n)| == n * PAYLOAD_LEN && BeginsImage(flash, m, AllPayloads(flash, m, n))
    decreases n
  {
    if n == 0 {
    } else {
      AllPayloadsBeginImage(flash, m, n - 1);
      PayloadContinues(flash, m, AllPayloads(flash, m, n - 1), n);
      AllPayloadsGrow(flash, m, n);
    }
  }

  lemma ReassembledIsPayloads(flash: Flash, m: Meta, sent: seq<Packet>, n: nat)
    requires SentUpTo(sent, n)
    requires forall i :: 1 <= i <= n ==> Received(sent, i) == Payload(flash, m, i)
    ensures Reassembled(sent, n) == AllPayloads(flash, m, n)
  {
    var ps := seq(n, i requires 0 <= i < n => Payload(flash, m, i + 1));
    assert seq(n, i requires 0 <= i < n && SentUpTo(sent, n) => Received(sent, i + 1)) == ps;
  }

  lemma CutIsImage(flash: Flash, m: Meta, r: seq<uint8>)
    requires BeginsImage(flash, m, r) && |r| >= m.firmwareLen
    ensures r[..m.firmwareLen] == Image(flash, m)
  {
  }

  /** In every run, while the sender waits for the receiver to finish, all packets have been
      handed to the radio, and put together and cut to the announced length they are the
      image in flash. While it is still sending, the packets counted so far have been. */
  lemma WholeImageIsSent(flash: Flash, es: seq<Event>)
    requires forall i :: 0 <= i < |es| ==> EventIsSane(es[i])
    ensures var s := Run(flash, PowerUp(), es);
            && (Upgrading(s) ==> forall i :: 1 <= i < s.next ==> WasSent(s.sent, i))
            && (s.state.WaitFinish? ==>
                  && s.next == s.total + 1
                  && |Reassembled(s.sent, s.total)| >= s.meta.firmwareLen
                  && Reassembled(s.sent, s.total)[..s.meta.firmwareLen] == Image(flash, s.meta))
  {
    RunInv(flash, es);
    ImageIsSent(flash, Run(flash, PowerUp(), es));
  }

  lemma ImageIsSent(flash: Flash, s: Sender)
    requires Inv(flash, s)
    ensures s.state.WaitFinish? ==>
              && s.next == s.total + 1
              && |Reassembled(s.sent, s.total)| >= s.meta.firmwareLen
              && Reassembled(s.sent, s.total)[..s.meta.firmwareLen] == Image(flash, s.meta)
  {
    if s.state.WaitFinish? {
      TotalIsSmall(s.meta);
      forall i | 1 <= i <= s.total ensures Received(s.sent, i) == Payload(flash, s.meta, i) {
        ReceivedIsPayload(flash, s, i);
      }
      assert SentUpTo(s.sent, s.total);
      ReassembledIsPayloads(flash, s.meta, s.sent, s.total);
      AllPayloadsBeginImage(flash, s.meta, s.total);
      CutIsImage(flash, s.meta, Reassembled(s.sent, s.total));
    }
  }

  // ----- Progress -----------------------------------------------------------------

  lemma ProgressGrows(a: Sender, b: Sender)
    requires Upgrading(a) && Upgrading(b) && a.total == b.total > 0 && 1 <= a.next <= b.next <= b.total + 1
    ensures Progress(a) <= Progress(b)
  {
    var x, y := a.next as int - 1, b.next as int - 1;
    DivMono(x * 100, y * 100, a.total);
  }

  lemma FullAtFinish(flash: Flash, s: Sender)
    requires Inv(flash, s) && s.state.WaitFinish?
    ensures Progress(s) == 100
  {
    TotalIsSmall(s.meta);
    WholeShare(s.total);
  }

  lemma WholeShare(total: nat)
    requires total > 0
    ensures total * 100 / total == 100
  {
  }

  /** One poll never takes the displayed progress back, unless the run fails. */
  lemma UpdateProgress(flash: Flash, s: Sender, irq: Irq, env: Env)
    requires Inv(flash, s)
    ensures var s' := Update(flash, s, irq, env); s'.state.Failed? || Progress(s) <= Progress(s')
  {
    var s' := Update(flash, s, irq, env);
    UpdateInv(flash, s, irq, env);
    if Upgrading(s) && Upgrading(s') {
      TotalIsSmall(s.meta);
      NextGrows(flash, s, irq, env);
      ProgressGrows(s, s');
    }
  }

  lemma NextGrows(flash: Flash, s: Sender, irq: Irq, env: Env)
    requires Inv(flash, s) && Upgrading(s)
    ensures var s' := Update(flash, s, irq, env);
            s'.next >= s.next && s'.total == s.total && s'.meta == s.meta
  {
    TotalIsSmall(s.meta);
    if irq.RxDone? {
      BurnResponseInv(flash, s, irq.data, env);
    } else if irq.TxDone? && s.state.Sending? {
      SendPacketKeeps(flash, s, s.next, env);
    }
  }

  predicate Polling(es: seq<Event>) { forall i :: 0 <= i < |es| ==> es[i].Polled? }

  lemma {:induction false} ProgressNeverFalls(flash: Flash, s: Sender, es: seq<Event>)
    requires Inv(flash, s) && Polling(es)
    ensures var s' := Run(flash, s, es);
            Inv(flash, s') && (s'.state.Failed? || Progress(s) <= Progress(s') <= 100)
    decreases |es|
  {
    if es == [] {
    } else {
      var n := |es| - 1;
      ProgressNeverFalls(flash, s, es[..n]);
      var m := Run(flash, s, es[..n]);
      UpdateInv(flash, m, es[n].irq, es[n].env);
      UpdateProgress(flash, m, es[n].irq, es[n].env);
    }
  }

  /** The receiver's word that it has everything, in a state that listens to it. */
  predicate FinishArrives(s: Sender, irq: Irq) {
    && irq.RxDone? && |irq.data| == BURN_RESPONSE_LEN && irq.data[2] == BURN_RESPONSE_FINISH
    && (((s.state.WaitUpgradeBcn? || s.state.Sending?) && (irq.dataSlot || irq.slot != UPGRADE_BCN_SLOT))
        || (s.state.WaitFinish? && irq.dataSlot))
  }

  /** One poll ends in DONE exactly on that word, not on a count of the sender's own. */
  lemma DoneOnFinishOnly(flash: Flash, s: Sender, irq: Irq, env: Env)
    requires Active(s)
    ensures Update(flash, s, irq, env).state.Done? <==> FinishArrives(s, irq)
  {
  }

  /** At event `k` the finish arrived, and no start was requested after it. */
  predicate FinishedAt(flash: Flash, es: seq<Event>, k: nat) {
    && k < |es| && es[k].Polled? && FinishArrives(Run(flash, PowerUp(), es[..k]), es[k].irq)
    && forall j :: k < j < |es| ==> es[j].Polled?
  }

  lemma StepToDone(flash: Flash, s: Sender, e: Event)
    ensures Step(flash, s, e).state.Done? <==> e.Polled? && (s.state.Done? || FinishArrives(s, e.irq))
  {
    if e.Polled? && Active(s) {
      DoneOnFinishOnly(flash, s, e.irq, e.env);
    }
  }

  lemma FinishedBefore(flash: Flash, es: seq<Event>, n: nat, k: nat)
    requires es != [] && n == |es| - 1 && k < n
    ensures FinishedAt(flash, es, k) <==> FinishedAt(flash, es[..n], k) && es[n].Polled?
  {
    assert es[..n][..k] == es[..k];
    assert forall j :: k < j < n ==> es[..n][j] == es[j];
  }

  /** A run stands at DONE exactly when, at one of its events, the receiver's finish arrived
      in a listening state and no start was requested after it. */
  lemma {:induction false} DoneMeansReceiverFinished(flash: Flash, es: seq<Event>)
    ensures Run(flash, PowerUp(), es).state.Done? <==> exists k: nat :: FinishedAt(flash, es, k)
    decreases |es|
  {
    if es == [] {
    } else {
      var n := |es| - 1;
      var s := Run(flash, PowerUp(), es[..n]);
      StepToDone(flash, s, es[n]);
      DoneMeansReceiverFinished(flash, es[..n]);
      DoneLater(flash, es, n);
    }
  }

  lemma DoneLater(flash: Flash, es: seq<Event>, n: nat)
    requires es != [] && n == |es| - 1
    ensures (exists k: nat :: FinishedAt(flash, es, k))
       <==> es[n].Polled? && ((exists k: nat :: FinishedAt(flash, es[..n], k))
                              || FinishArrives(Run(flash, PowerUp(), es[..n]), es[n].irq))
  {
    if k: nat :| FinishedAt(flash, es, k) {
      if k < n {
        FinishedBefore(flash, es, n, k);
      }
    }
    if es[n].Polled? {
      if k: nat :| FinishedAt(flash, es[..n], k) {
        FinishedBefore(flash, es, n, k);
      }
      assert FinishArrives(Run(flash, PowerUp(), es[..n]), es[n].irq) ==> FinishedAt(flash, es, n);
    }
  }

  // ----- Completion ---------------------------------------------------------------

  predicate AllGood(env: Env) { env.readOk && env.sendOk }

  function TxRun(flash: Flash, s: Sender, envs: seq<Env>): Sender
    decreases |envs|
  {
    if envs == [] then s
    else Update(flash, TxRun(flash, s, envs[..|envs| - 1]), TxDone(UPGRADE_TX_SLOT), envs[|envs| - 1])
  }

  /** With working drivers, each finished transmission sends the next packet, so the sender
      waits for the finish after exactly as many as there are packets left (one if none). */
  lemma {:induction false} TransmissionsComplete(flash: Flash, s: Sender, envs: seq<Env>)
    requires Inv(flash, s) && s.state.Sending?
    requires forall i :: 0 <= i < |envs| ==> AllGood(envs[i])
    ensures var s' := TxRun(flash, s, envs);
            var left := if s.next > s.total then 1 else s.total - s.next + 1;
            && Inv(flash, s') && s'.total == s.total && s'.meta == s.meta
            && (|envs| < left ==> s'.state.Sending? && s'.next == s.next + |envs|)
            && (|envs| >= left ==> s'.state.WaitFinish?)
    decreases |envs|
  {
    if envs == [] {
    } else {
      var n := |envs| - 1;
      TransmissionsComplete(flash, s, envs[..n]);
      GoodTxDone(flash, TxRun(flash, s, envs[..n]), envs[n]);
    }
  }

  lemma GoodTxDone(flash: Flash, s: Sender, env: Env)
    requires Inv(flash, s) && AllGood(env) && (s.state.Sending? || s.state.WaitFinish?)
    ensures var s' := Update(flash, s, TxDone(UPGRADE_TX_SLOT), env);
            && Inv(flash, s') && s'.total == s.total && s'.meta == s.meta
            && (s.state.WaitFinish? ==> s'.state.WaitFinish?)
            && (s.state.Sending? && s.next < s.total ==> s'.state.Sending? && s'.next == s.next + 1)
            && (s.state.Sending? && s.next >= s.total ==> s'.state.WaitFinish?)
  {
    UpdateInv(flash, s, TxDone(UPGRADE_TX_SLOT), env);
    TotalIsSmall(s.meta);
    if s.state.Sending? && s.next <= s.total {
      ReadsStayInside(s.meta, s.next);
      GoodSendNext(flash, s, env);
    }
  }

  lemma GoodSendNext(flash: Flash, s: Sender, env: Env)
    requires AllGood(env) && 1 <= s.next <= s.total < 0xFFFF && ReadLen(s.meta, s.next) > 0
    ensures var s' := SendNextPacket(flash, s, env);
            && s'.next == s.next + 1 && s'.total == s.total && s'.meta == s.meta
            && s'.state == if s.next < s.total then State.Sending else WaitFinish
  {
  }
}
