/** Exactly-once transfer over a lossy synchronous link.
    A run interleaves submissions (only while the sender is idle), data packets that
    arrive or are lost, acknowledgements carrying the receiver's confirm bit of that
    moment (a lost one is simply absent), the receiver's owner taking a finished message
    out of the buffer, and changes of the sender's patience with the telemetry rate. */
module StubbornLink {
  import opened Widths
  import opened StubbornEndpoints

  datatype Option<T> = None | Some(value: T)

  datatype Event =
    | Submit(message: Message)
    | Send(maxLen: uint8, delivered: bool)
    | Acknowledge
    | Consume
    | Retune(maxWaitCount: uint16)

  /** Both ends and the history of the run. `chunk` is the payload size under which the
      current chunk was last offered; `completed` lists the submissions the receiver
      finished, `consumed` those its owner took out. */
  datatype System = System(
    s: SenderState,
    r: ReceiverState,
    chunk: Option<uint8>,
    submitted: seq<Message>,
    completed: seq<int>,
    consumed: seq<int>)
  {
    function Current(): int { |submitted| - 1 }
  }

  function Last(xs: seq<int>): int
    requires xs != []
  {
    xs[|xs| - 1]
  }

  predicate Start(y: System) {
    && y.s == SenderReset(y.s)
    && y.r == ReceiverReset(y.r) && !y.r.finished
    && y.s.maxPackageIndex == y.r.maxPackageIndex >= 2
    && y.chunk == None && y.submitted == [] && y.completed == [] && y.consumed == []
  }

  /** Both sizes carry the same bytes of the message; or the chunk is the one whose index
      the receiver takes for a resync, and neither size ends the message. */
  predicate SameStep(s: SenderState, a: uint8, b: uint8) {
    || ChunkLength(s, a) == ChunkLength(s, b)
    || (s.currentPackage == s.maxPackageIndex && s.currentOffset + a < |s.data| && s.currentOffset + b < |s.data|)
  }

  /** A chunk that the receiver has taken is offered again only with the same bytes; one
      not yet taken may change its size. */
  predicate SafeToOffer(s: SenderState, r: ReceiverState, chunk: Option<uint8>, n: uint8) {
    s.phase.Sending? && chunk.Some? && r.confirm == s.expected ==> SameStep(s, chunk.value, n)
  }

  /** What the firmware around the two ends respects: submit only when idle and only what
      the receive buffer holds; offer a taken chunk again only with the same bytes. */
  predicate Allowed(y: System, e: Event) {
    && y.s.currentOffset <= |y.s.data|
    && y.r.currentOffset <= |y.r.data|
    && match e
       case Submit(m) => y.s.phase.Idle? && |m| <= |y.r.data|
       case Send(maxLen, _) => maxLen >= 1 && SafeToOffer(y.s, y.r, y.chunk, maxLen)
       case _ => true
  }

  /** A data packet arrives; if it finishes a message, that is the sender's current one. */
  function Deliver(y: System, p: Packet): System
    requires y.r.currentOffset <= |y.r.data|
  {
    var r := Hear(y.r, p);
    y.(r := r, completed := if !y.r.finished && r.finished then y.completed + [y.Current()] else y.completed)
  }

  function Offer(y: System, maxLen: uint8): System
    requires y.s.currentOffset <= |y.s.data|
  {
    var s := GetPayload(y.s, maxLen).0;
    y.(s := s, chunk := if s.phase.Sending? then Some(maxLen) else y.chunk)
  }

  function Step(y: System, e: Event): System
    requires Allowed(y, e)
  {
    match e
    case Submit(m) =>
      y.(s := SetData(y.s, m), chunk := None, submitted := y.submitted + [m])
    case Send(maxLen, delivered) =>
      var offered := Offer(y, maxLen);
      if delivered then Deliver(offered, GetPayload(y.s, maxLen).1) else offered
    case Acknowledge =>
      var s := Confirm(y.s, y.r.confirm);
      y.(s := s, chunk := if s.currentPackage != y.s.currentPackage then None else y.chunk)
    case Consume =>
      y.(r := Unlock(y.r),
         consumed := if y.r.finished && y.completed != [] then y.consumed + [Last(y.completed)] else y.consumed)
    case Retune(limit) => y.(s := y.s.(maxWaitCount := limit))
  }

  predicate Increasing(xs: seq<int>) {
    forall i, j :: 0 <= i < j < |xs| ==> xs[i] < xs[j]
  }

  predicate Holds(buffer: Message, m: Message) {
    |m| <= |buffer| && buffer[..|m|] == m
  }

  // ----- the two ends, phase by phase -----

  /** Nothing under way at the receiver. */
  predicate AtRest(r: ReceiverState) {
    r.finished || (r.currentPackage == 1 && r.currentOffset == 0)
  }

  predicate Fresh(r: ReceiverState) {
    !r.finished && r.currentPackage == 1 && r.currentOffset == 0
  }

  /** The receiver holds the first `offset` bytes of `m` and waits for chunk `index`. */
  predicate AtChunk(r: ReceiverState, m: Message, index: int, offset: int) {
    && !r.finished && r.currentPackage == index && r.currentOffset == offset
    && offset <= |r.data| && offset <= |m| && r.data[..offset] == m[..offset]
  }

  /** The one chunk that carries all of `m` has arrived; only the closing packet is missing. */
  predicate AtClose(r: ReceiverState, m: Message) {
    !r.finished && r.currentPackage == 2 && Holds(r.data, m) && r.currentOffset >= |m|
  }

  /** The chunk on offer has not been taken; or it is the first one and was taken twice, in
      two sizes, so that its two toggles of the confirm bit cancel. */
  predicate Untaken(s: SenderState, r: ReceiverState) {
    if s.currentPackage == 1 then AtRest(r) || (!r.finished && r.currentPackage == 2)
    else
      || (AtChunk(r, s.data, s.currentPackage, s.currentOffset) && s.currentPackage <= s.maxPackageIndex)
      || (Fresh(r) && s.currentPackage >= s.maxPackageIndex)
  }

  /** The chunk on offer has been taken; only its acknowledgement is missing. */
  predicate Taken(s: SenderState, r: ReceiverState, n: uint8) {
    var last := s.currentOffset + n >= |s.data|;
    if s.currentPackage == 1 then
      if last then AtClose(r, s.data) else AtChunk(r, s.data, 2, n)
    else if last then AtRest(r)
    else if s.currentPackage == s.maxPackageIndex then Fresh(r)
    else AtChunk(r, s.data, s.currentPackage + 1, s.currentOffset + n) && s.currentPackage < s.maxPackageIndex
  }

  /** Taking the chunk on offer completes the message. */
  predicate TakingCompletes(s: SenderState, n: uint8) {
    s.currentPackage > 1 && s.currentOffset + n >= |s.data|
  }

  predicate SendingInv(s: SenderState, r: ReceiverState, chunk: Option<uint8>, done: bool) {
    && |s.data| <= |r.data|
    && 1 <= s.currentPackage <= s.maxPackageIndex + 1 && s.currentPackage - 1 <= s.currentOffset
    && (s.currentPackage == 1 ==> s.currentOffset == 0)
    && (s.currentPackage > 1 ==> s.currentOffset < |s.data|)
    && (chunk.Some? ==> chunk.value >= 1 && s.bytesLastPayload == Min(|s.data| - s.currentOffset, chunk.value))
    && if r.confirm == s.expected then
         && chunk.Some? && Taken(s, r, chunk.value)
         && done == TakingCompletes(s, chunk.value)
       else Untaken(s, r) && !done
  }

  /** How the two ends stand to each other; `done` says whether the receiver has
      completed the sender's current message. */
  predicate LinkInv(s: SenderState, r: ReceiverState, chunk: Option<uint8>, done: bool) {
    && s.currentOffset <= |s.data| && r.currentOffset <= |r.data|
    && s.maxPackageIndex == r.maxPackageIndex >= 2
    && match s.phase
       case Idle => r.confirm != s.expected && AtRest(r)
       case SendPending =>
         && r.confirm != s.expected && AtRest(r) && !done
         && s.currentPackage == 1 && s.currentOffset == 0 && chunk == None && |s.data| <= |r.data|
       case Sending => SendingInv(s, r, chunk, done)
       case WaitUntilNextConfirm =>
         && s.currentPackage == 2
         && if r.confirm == s.expected then AtRest(r) && done else AtClose(r, s.data) && !done
       case Resync => r.confirm == s.expected ==> Fresh(r)
       case ResyncThenSend => false
  }

  lemma AcknowledgeKeepsLink(s: SenderState, r: ReceiverState, chunk: Option<uint8>, done: bool)
    requires LinkInv(s, r, chunk, done)
    ensures var s' := Confirm(s, r.confirm);
            LinkInv(s', r, if s'.currentPackage != s.currentPackage then None else chunk, done)
    ensures s.phase != Idle && s.phase != Resync && Confirm(s, r.confirm).phase == Idle ==> done
  {
    var s' := Confirm(s, r.confirm);
    if s.phase == Sending && r.confirm == s.expected {
      assert s'.currentOffset == s.currentOffset + s.bytesLastPayload;
      if s.currentPackage > 1 && s'.currentOffset < |s.data| {
        assert s.currentPackage < 255;
      }
    }
  }

  lemma OverlayExtends(buffer: Message, offset: uint8, payload: Message, m: Message, k: nat)
    requires offset + k <= |m| <= |buffer| && k <= |payload|
    requires buffer[..offset] == m[..offset] && payload[..k] == m[offset..offset + k]
    ensures Overlay(buffer, offset, payload)[..offset + k] == m[..offset + k]
  {
    var d := Overlay(buffer, offset, payload);
    forall i | 0 <= i < offset + k
      ensures d[i] == m[i]
    {
      if i < offset {
        assert d[i] == buffer[..offset][i] == m[..offset][i];
      } else {
        assert d[i] == payload[..k][i - offset] == m[offset..offset + k][i - offset];
      }
    }
  }

  /** The state of both ends after one data packet that arrives. */
  predicate DeliveryKeepsLink(s: SenderState, r: ReceiverState, chunk: Option<uint8>, done: bool, n: uint8)
    requires s.currentOffset <= |s.data| && r.currentOffset <= |r.data|
  {
    var (s', p) := GetPayload(s, n);
    var r' := Hear(r, p);
    var completes := !r.finished && r'.finished;
    && LinkInv(s', r', if s'.phase.Sending? then Some(n) else chunk, done || completes)
    && (completes ==> !done && !s.phase.Idle? && Holds(r'.data, s.data))
    && (r.finished && r'.finished ==> r' == r)
  }

  /** A chunk at the receiver's position is written there and advances it. */
  lemma AcceptAdvances(r: ReceiverState, payload: Message, m: Message, index: uint8, k: nat)
    requires AtChunk(r, m, index, r.currentOffset) && index < 255
    requires r.currentOffset + k <= |m| <= |r.data| && k <= |payload|
    requires payload[..k] == m[r.currentOffset..r.currentOffset + k]
    requires k == |payload| || r.currentOffset + k == |m|
    ensures var r' := AcceptChunk(r, payload);
            && r'.confirm == !r.confirm && r'.currentPackage == index + 1 && |r'.data| == |r.data|
            && r'.currentOffset == r.currentOffset + Min(|r.data| - r.currentOffset, |payload|)
            && r'.data[..r.currentOffset + k] == m[..r.currentOffset + k]
            && (k == |payload| ==> AtChunk(r', m, index + 1, r.currentOffset + k))
            && (r.currentOffset + k == |m| ==> Holds(r'.data, m) && r'.currentOffset >= |m|)
  {
    OverlayExtends(r.data, r.currentOffset, payload, m, k);
  }

  lemma DeliverFirstAccepted(s: SenderState, r: ReceiverState, chunk: Option<uint8>, done: bool, n: uint8)
    requires LinkInv(s, r, chunk, done) && n >= 1
    requires s.phase.Sending? && (chunk.Some? ==> n == chunk.value)
    requires s.currentPackage == 1 && Fresh(r)
    ensures DeliveryKeepsLink(s, r, chunk, done, n)
  {
    var (s', p) := GetPayload(s, n);
    var k := Min(|s.data|, n);
    assert p.payload[..k] == s.data[0..k];
    AcceptAdvances(r, p.payload, s.data, 1, k);
    var r' := Hear(r, p);
    assert r' == AcceptChunk(r, p.payload);
    assert Taken(s', r', n);
  }

  lemma DeliverFirstRepeated(s: SenderState, r: ReceiverState, chunk: Option<uint8>, done: bool, n: uint8)
    requires LinkInv(s, r, chunk, done) && n >= 1
    requires s.phase.Sending? && (chunk.Some? ==> n == chunk.value)
    requires s.currentPackage == 1 && !Fresh(r)
    ensures DeliveryKeepsLink(s, r, chunk, done, n)
  {
    var (s', p) := GetPayload(s, n);
    var r' := Hear(r, p);
    if !r.finished {
      assert r.currentPackage == 2 && s.phase.Sending?;
      if RepeatsFirstChunk(r, p.payload) {
        assert r' == r;
      } else {
        TakenAgain(s, r, n);
      }
    }
  }

  /** The first chunk in a size other than before starts the message afresh. */
  lemma TakenAgain(s: SenderState, r: ReceiverState, n: uint8)
    requires s.phase.Sending? && s.currentPackage == 1 && s.currentOffset == 0 && n >= 1 && |s.data| <= |r.data|
    requires !r.finished && r.currentPackage == 2 && r.currentOffset <= |r.data| && r.maxPackageIndex >= 2
    requires !RepeatsFirstChunk(r, GetPayload(s, n).1.payload)
    ensures var r' := Hear(r, GetPayload(s, n).1);
            && r'.confirm == !r.confirm && r'.currentPackage == 2 && !r'.finished
            && (if |s.data| <= n then AtClose(r', s.data) else AtChunk(r', s.data, 2, n))
  {
    var p, k := GetPayload(s, n).1, Min(|s.data|, n);
    var r1 := r.(currentPackage := 1, currentOffset := 0);
    assert p.payload[..k] == s.data[0..k];
    assert Hear(r, p) == AcceptChunk(r1, p.payload);
    AcceptAdvances(r1, p.payload, s.data, 1, k);
  }

  /** A later chunk, not the last, reaches the receiver in step with the sender. */
  lemma DeliverLaterAccepted(s: SenderState, r: ReceiverState, chunk: Option<uint8>, done: bool, n: uint8)
    requires LinkInv(s, r, chunk, done) && n >= 1
    requires s.phase.Sending? && (chunk.Some? ==> n == chunk.value) && s.currentPackage > 1
    requires r.confirm != s.expected && AtChunk(r, s.data, s.currentPackage, s.currentOffset)
    requires s.currentPackage < s.maxPackageIndex && !TakingCompletes(s, n)
    ensures DeliveryKeepsLink(s, r, chunk, done, n)
  {
    var (s', p) := GetPayload(s, n);
    assert p.payload[..n] == s.data[s.currentOffset..s.currentOffset + n];
    AcceptAdvances(r, p.payload, s.data, s.currentPackage, n);
    var r' := Hear(r, p);
    assert r' == AcceptChunk(r, p.payload);
    assert Taken(s', r', n);
  }

  /** The last chunk reaches the receiver in step with the sender and completes the message. */
  lemma DeliverLastAccepted(s: SenderState, r: ReceiverState, chunk: Option<uint8>, done: bool, n: uint8)
    requires LinkInv(s, r, chunk, done) && n >= 1
    requires s.phase.Sending? && (chunk.Some? ==> n == chunk.value)
    requires r.confirm != s.expected && AtChunk(r, s.data, s.currentPackage, s.currentOffset)
    requires TakingCompletes(s, n)
    ensures DeliveryKeepsLink(s, r, chunk, done, n)
  {
    var (s', p) := GetPayload(s, n);
    var m, o := s.data, s.currentOffset;
    assert p.index == 0 && p.payload[..|m| - o] == m[o..];
    OverlayExtends(r.data, o, p.payload, m, |m| - o);
    var r' := Hear(r, p);
    assert r' == AcceptChunk(r.(finished := true), p.payload);
    assert Holds(r'.data, m);
  }

  /** A later chunk is ignored by the receiver, or taken for a resync: its index collides
      with the resync index exactly when the message has too many chunks. */
  lemma DeliverLaterIgnored(s: SenderState, r: ReceiverState, chunk: Option<uint8>, done: bool, n: uint8)
    requires LinkInv(s, r, chunk, done) && n >= 1
    requires s.phase.Sending? && (chunk.Some? ==> n == chunk.value) && s.currentPackage > 1
    requires || r.confirm == s.expected
             || !AtChunk(r, s.data, s.currentPackage, s.currentOffset)
             || (s.currentPackage == s.maxPackageIndex && !TakingCompletes(s, n))
    ensures DeliveryKeepsLink(s, r, chunk, done, n)
  {
    var (s', p) := GetPayload(s, n);
    var r' := Hear(r, p);
    if p.index != s.maxPackageIndex {
      assert r' == r;
    }
  }

  lemma DeliverControl(s: SenderState, r: ReceiverState, chunk: Option<uint8>, done: bool, n: uint8)
    requires LinkInv(s, r, chunk, done) && !s.phase.Sending? && !s.phase.SendPending?
    ensures DeliveryKeepsLink(s, r, chunk, done, n)
  {
    if s.phase.WaitUntilNextConfirm? && r.confirm != s.expected {
      var d := Overlay(r.data, r.currentOffset, Zeros(n));
      assert d[..|s.data|] == r.data[..|s.data|];
    }
  }

  // ----- runs -----

  /** The receiver has completed the message the sender was last given. */
  predicate Done(y: System) {
    y.completed != [] && Last(y.completed) == y.Current()
  }

  predicate HistoryInv(y: System) {
    && Increasing(y.completed) && Increasing(y.consumed)
    && (forall i :: 0 <= i < |y.completed| ==> 0 <= y.completed[i] <= y.Current())
    && (forall x :: x in y.consumed ==> x in y.completed)
    && (y.consumed != [] ==> y.completed != [] && Last(y.consumed) <= Last(y.completed))
    && (y.s.phase.Idle? || (y.submitted != [] && y.s.data == y.submitted[y.Current()]))
    && (y.r.finished ==>
          && y.completed != [] && Holds(y.r.data, y.submitted[Last(y.completed)])
          && (y.consumed != [] ==> Last(y.consumed) < Last(y.completed)))
  }

  predicate Inv(y: System) {
    HistoryInv(y) && LinkInv(y.s, y.r, y.chunk, Done(y))
  }

  lemma StartInv(y: System)
    requires Start(y)
    ensures Inv(y)
  {
  }

  lemma IncreasingAppend(xs: seq<int>, x: int)
    requires Increasing(xs) && (xs != [] ==> Last(xs) < x)
    ensures Increasing(xs + [x]) && Last(xs + [x]) == x
    ensures forall i :: 0 <= i < |xs| ==> (xs + [x])[i] < x
  {
  }

  lemma SubmitInv(y: System, m: Message)
    requires Inv(y) && Allowed(y, Submit(m))
    ensures Inv(Step(y, Submit(m)))
  {
  }

  lemma AcknowledgeInv(y: System)
    requires Inv(y)
    ensures Inv(Step(y, Acknowledge))
  {
    AcknowledgeKeepsLink(y.s, y.r, y.chunk, Done(y));
    assert Step(y, Acknowledge).s.data == y.s.data;
  }

  lemma ConsumeInv(y: System)
    requires Inv(y)
    ensures Inv(Step(y, Consume))
  {
    if y.r.finished {
      IncreasingAppend(y.consumed, Last(y.completed));
    }
  }

  /** Offering a chunk, whether it then arrives or not, keeps the ends in step. */
  lemma OfferKeepsLink(s: SenderState, r: ReceiverState, chunk: Option<uint8>, done: bool, n: uint8)
    requires LinkInv(s, r, chunk, done) && n >= 1 && SafeToOffer(s, r, chunk, n)
    ensures var s' := GetPayload(s, n).0;
            LinkInv(s', r, if s'.phase.Sending? then Some(n) else chunk, done)
  {
  }

  lemma OfferedTwice(s: SenderState, n: uint8)
    requires s.currentOffset <= |s.data|
    ensures GetPayload(GetPayload(s, n).0, n) == GetPayload(s, n)
  {
  }

  /** Delivery of the chunk as it was last offered. */
  lemma OfferedDelivery(s: SenderState, r: ReceiverState, chunk: Option<uint8>, done: bool, n: uint8)
    requires LinkInv(s, r, chunk, done) && n >= 1 && !s.phase.SendPending?
    requires s.phase.Sending? ==> chunk == Some(n)
    ensures DeliveryKeepsLink(s, r, chunk, done, n)
  {
    if !s.phase.Sending? {
      DeliverControl(s, r, chunk, done, n);
    } else if s.currentPackage == 1 && Fresh(r) {
      DeliverFirstAccepted(s, r, chunk, done, n);
    } else if s.currentPackage == 1 {
      DeliverFirstRepeated(s, r, chunk, done, n);
    } else if r.confirm == s.expected || !AtChunk(r, s.data, s.currentPackage, s.currentOffset) {
      DeliverLaterIgnored(s, r, chunk, done, n);
    } else if TakingCompletes(s, n) {
      DeliverLastAccepted(s, r, chunk, done, n);
    } else if s.currentPackage < s.maxPackageIndex {
      DeliverLaterAccepted(s, r, chunk, done, n);
    } else {
      DeliverLaterIgnored(s, r, chunk, done, n);
    }
  }

  lemma DeliveryAfterOffer(s: SenderState, r: ReceiverState, chunk: Option<uint8>, done: bool, n: uint8)
    requires LinkInv(s, r, chunk, done) && n >= 1 && SafeToOffer(s, r, chunk, n)
    ensures DeliveryKeepsLink(s, r, chunk, done, n)
  {
    var s' := GetPayload(s, n).0;
    OfferKeepsLink(s, r, chunk, done, n);
    OfferedTwice(s, n);
    OfferedDelivery(s', r, if s'.phase.Sending? then Some(n) else chunk, done, n);
  }

  lemma CompletionHistory(y: System, y': System)
    requires HistoryInv(y) && !Done(y) && Holds(y'.r.data, y.s.data) && !y.s.phase.Idle?
    requires y' == y.(s := y'.s, r := y'.r, chunk := y'.chunk, completed := y.completed + [y.Current()])
    requires y'.s.data == y.s.data
    ensures HistoryInv(y') && Done(y')
  {
    IncreasingAppend(y.completed, y.Current());
  }

  lemma QuietHistory(y: System, y': System)
    requires HistoryInv(y) && y' == y.(s := y'.s, r := y'.r, chunk := y'.chunk)
    requires y'.s.data == y.s.data && (y'.s.phase.Idle? <==> y.s.phase.Idle?)
    requires y'.r.finished ==> y'.r == y.r
    ensures HistoryInv(y') && Done(y') == Done(y)
  {
  }

  lemma DeliveryHistory(y: System, n: uint8)
    requires HistoryInv(y) && Allowed(y, Send(n, true))
    requires DeliveryKeepsLink(y.s, y.r, y.chunk, Done(y), n)
    ensures var y' := Step(y, Send(n, true));
            HistoryInv(y') && Done(y') == (Done(y) || (!y.r.finished && y'.r.finished))
  {
    var y' := Step(y, Send(n, true));
    if !y.r.finished && y'.r.finished {
      CompletionHistory(y, y');
    } else {
      QuietHistory(y, y');
    }
  }

  lemma LossInv(y: System, n: uint8)
    requires Inv(y) && Allowed(y, Send(n, false))
    ensures Inv(Step(y, Send(n, false)))
  {
    OfferKeepsLink(y.s, y.r, y.chunk, Done(y), n);
    QuietHistory(y, Step(y, Send(n, false)));
  }

  lemma DeliveryInv(y: System, n: uint8)
    requires Inv(y) && Allowed(y, Send(n, true))
    ensures Inv(Step(y, Send(n, true)))
  {
    DeliveryAfterOffer(y.s, y.r, y.chunk, Done(y), n);
    DeliveryHistory(y, n);
  }

  lemma SendInv(y: System, n: uint8, delivered: bool)
    requires Inv(y) && Allowed(y, Send(n, delivered))
    ensures Inv(Step(y, Send(n, delivered)))
  {
    if delivered {
      DeliveryInv(y, n);
    } else {
      LossInv(y, n);
    }
  }

  lemma StepInv(y: System, e: Event)
    requires Inv(y) && Allowed(y, e)
    ensures Inv(Step(y, e))
  {
    match e
    case Submit(m) => SubmitInv(y, m);
    case Send(n, delivered) => SendInv(y, n, delivered);
    case Acknowledge => AcknowledgeInv(y);
    case Consume => ConsumeInv(y);
    case Retune(limit) => RetuneInv(y, limit);
  }

  lemma RetuneInv(y: System, limit: uint16)
    requires Inv(y)
    ensures Inv(y.(s := y.s.(maxWaitCount := limit)))
  {
    var y' := y.(s := y.s.(maxWaitCount := limit));
    RetuneKeepsLink(y.s, y.r, y.chunk, Done(y), limit);
    QuietHistory(y, y');
  }

  lemma RetuneKeepsLink(s: SenderState, r: ReceiverState, chunk: Option<uint8>, done: bool, limit: uint16)
    requires LinkInv(s, r, chunk, done)
    ensures LinkInv(s.(maxWaitCount := limit), r, chunk, done)
  {
  }

  predicate AllowedRun(y: System, es: seq<Event>)
    decreases |es|
  {
    es == [] || (Allowed(y, es[0]) && AllowedRun(Step(y, es[0]), es[1..]))
  }

  function Run(y: System, es: seq<Event>): System
    requires AllowedRun(y, es)
    decreases |es|
  {
    if es == [] then y else Run(Step(y, es[0]), es[1..])
  }

  lemma {:induction false} RunInv(y: System, es: seq<Event>)
    requires Inv(y) && AllowedRun(y, es)
    ensures Inv(Run(y, es))
    decreases |es|
  {
    if es == [] {
    } else {
      StepInv(y, es[0]);
      RunInv(Step(y, es[0]), es[1..]);
    }
  }

  // ----- what a run from reset promises -----

  /** Completed messages are an in-order, duplicate-free subsequence of the submitted
      ones; consumed ones of the completed ones; and a finished receiver holds, as the
      prefix of its buffer, exactly the bytes of the last message it completed. */
  lemma ExactlyOnce(y: System, es: seq<Event>)
    requires Start(y) && AllowedRun(y, es)
    ensures var z := Run(y, es);
            && Increasing(z.completed) && (forall i :: 0 <= i < |z.completed| ==> 0 <= z.completed[i] < |z.submitted|)
            && Increasing(z.consumed) && (forall x :: x in z.consumed ==> x in z.completed)
            && (z.r.finished ==> z.completed != [] && Holds(z.r.data, z.submitted[Last(z.completed)]))
  {
    StartInv(y);
    RunInv(y, es);
  }

  /** When the sender goes idle otherwise than out of a resync, its message has been
      completed, and only once. */
  lemma IdleMeansDelivered(y: System, es: seq<Event>, e: Event)
    requires Start(y) && AllowedRun(y, es) && Allowed(Run(y, es), e)
    requires var z := Run(y, es);
             !z.s.phase.Idle? && !z.s.phase.Resync? && Step(z, e).s.phase.Idle?
    ensures var z := Step(Run(y, es), e);
            && z.submitted != [] && z.completed != [] && Last(z.completed) == z.Current()
            && (forall i :: 0 <= i < |z.completed| - 1 ==> z.completed[i] != z.Current())
  {
    StartInv(y);
    RunInv(y, es);
    var z := Run(y, es);
    StepInv(z, e);
    assert e == Acknowledge;
    AcknowledgeKeepsLink(z.s, z.r, z.chunk, Done(z));
  }

  // ----- why a taken chunk must keep its bytes -----

  /** Both ends agree, and an idle sender is one whose message arrived. */
  predicate InStepAfter(s: SenderState, r: ReceiverState, chunk: Option<uint8>, done: bool) {
    LinkInv(s, r, chunk, done) && (s.phase.Idle? ==> done)
  }

  /** The receiver took the chunk in a field of `a` bytes; its acknowledgement finds the
      sender offering it in one of `b`. For the first chunk and every later one, last or
      not, the ends stay in step exactly when both fields carry the same bytes. */
  lemma ResentChunkKeepsStep(s: SenderState, r: ReceiverState, a: uint8, b: uint8, done: bool)
    requires LinkInv(s, r, Some(a), done) && s.phase.Sending? && r.confirm == s.expected && b >= 1
    ensures InStepAfter(Confirm(GetPayload(s, b).0, r.confirm), r, None, done) <==> SameStep(s, a, b)
  {
    assert Taken(s, r, a);
    var s' := Confirm(GetPayload(s, b).0, r.confirm);
    assert s'.currentOffset == s.currentOffset + ChunkLength(s, b);
    if s.currentPackage == 1 {
      FirstResent(s, r, a, b, done);
    } else {
      LaterResent(s, r, a, b, done);
    }
  }

  lemma FirstResent(s: SenderState, r: ReceiverState, a: uint8, b: uint8, done: bool)
    requires LinkInv(s, r, Some(a), done) && s.phase.Sending? && r.confirm == s.expected && b >= 1
    requires s.currentPackage == 1
    ensures InStepAfter(Confirm(GetPayload(s, b).0, r.confirm), r, None, done) <==> SameStep(s, a, b)
  {
  }

  lemma LaterResent(s: SenderState, r: ReceiverState, a: uint8, b: uint8, done: bool)
    requires LinkInv(s, r, Some(a), done) && s.phase.Sending? && r.confirm == s.expected && b >= 1
    requires s.currentPackage > 1
    ensures InStepAfter(Confirm(GetPayload(s, b).0, r.confirm), r, None, done) <==> SameStep(s, a, b)
  {
  }
}
