/** Delivery on a lossy link: repeating a packet changes nothing, the sender waits out its
    patience, and as long as that lasts every transmission that gets through with its
    acknowledgement brings the message one chunk further. */
module StubbornDelivery {
  import opened Widths
  import opened StubbornEndpoints
  import opened StubbornLink
  import opened StubbornRecovery

  // ----- repeats ------------------------------------------------------------------

  function HearTimes(r: ReceiverState, p: Packet, times: nat): (r': ReceiverState)
    requires r.currentOffset <= |r.data|
    ensures r'.currentOffset <= |r'.data|
  {
    if times == 0 then r else Hear(HearTimes(r, p, times - 1), p)
  }

  /** What the receiver is when it took the chunk on offer. */
  predicate TookChunk(s: SenderState, r: ReceiverState, n: uint8)
    requires s.currentOffset <= |s.data|
  {
    if TakingCompletes(s, n) then r.finished && Holds(r.data, s.data)
    else if s.currentPackage > 1 then AtChunk(r, s.data, s.currentPackage + 1, s.currentOffset + n)
    else
      && !r.finished && r.currentPackage == 2 && r.currentOffset == n <= |r.data|
      && r.data[..n] == s.data[..Min(|s.data|, n)] + Zeros(n - Min(|s.data|, n))
  }

  /** The chunk on offer heard once more by a receiver that took it: nothing happens. */
  lemma RepeatIsIgnored(s: SenderState, r: ReceiverState, n: uint8)
    requires s.currentOffset <= |s.data| && r.currentOffset <= |r.data| && n >= 1
    requires s.phase.Sending? || s.phase.SendPending?
    requires s.maxPackageIndex == r.maxPackageIndex >= 2 && 1 <= s.currentPackage
    requires s.currentPackage < s.maxPackageIndex || TakingCompletes(s, n)
    requires s.currentPackage == 1 ==> s.currentOffset == 0
    requires TookChunk(s, r, n)
    ensures Hear(r, GetPayload(s, n).1) == r
  {
    var p := GetPayload(s, n).1;
    if s.currentPackage == 1 {
      assert p.payload == s.data[..Min(|s.data|, n)] + Zeros(n - Min(|s.data|, n));
      assert RepeatsFirstChunk(r, p.payload);
    }
  }

  lemma FirstIsTaken(s: SenderState, r: ReceiverState, n: uint8)
    requires InStep(s, r) && n >= 1 && s.currentPackage == 1 && n <= |r.data|
    ensures var r' := Hear(r, GetPayload(s, n).1);
            TookChunk(s, r', n) && r'.confirm == !r.confirm && |r'.data| == |r.data|
  {
    var p := GetPayload(s, n).1;
    AwaitedHeard(r, p);
    var r' := AcceptChunk(r, p.payload);
    assert r'.data[..n] == p.payload;
    assert p.payload == s.data[..Min(|s.data|, n)] + Zeros(n - Min(|s.data|, n));
  }

  lemma MiddleIsTaken(s: SenderState, r: ReceiverState, n: uint8)
    requires InStep(s, r) && n >= 1 && 1 < s.currentPackage < s.maxPackageIndex && !TakingCompletes(s, n)
    ensures var r' := Hear(r, GetPayload(s, n).1);
            TookChunk(s, r', n) && r'.confirm == !r.confirm && |r'.data| == |r.data|
  {
    MiddleChunk(s, n);
    var p := GetPayload(s, n).1;
    AcceptAdvances(r, p.payload, s.data, s.currentPackage, n);
    AwaitedHeard(r, p);
  }

  lemma LastIsTaken(s: SenderState, r: ReceiverState, n: uint8)
    requires InStep(s, r) && n >= 1 && TakingCompletes(s, n)
    ensures var r' := Hear(r, GetPayload(s, n).1);
            TookChunk(s, r', n) && r'.confirm == !r.confirm && |r'.data| == |r.data|
  {
    LastOffered(s, n);
    var p, left := GetPayload(s, n).1, |s.data| - s.currentOffset;
    assert s.data[s.currentOffset..] == s.data[s.currentOffset..s.currentOffset + left];
    OverlayExtends(r.data, s.currentOffset, p.payload, s.data, left);
    CloseHeard(r, p);
  }

  /** A receiver in step takes the chunk on offer. */
  lemma OfferIsTaken(s: SenderState, r: ReceiverState, n: uint8)
    requires InStep(s, r) && n >= 1 && (s.currentPackage < s.maxPackageIndex || TakingCompletes(s, n))
    requires s.currentPackage == 1 ==> n <= |r.data|
    ensures var r' := Hear(r, GetPayload(s, n).1);
            TookChunk(s, r', n) && r'.confirm == !r.confirm && |r'.data| == |r.data|
  {
    if s.currentPackage == 1 {
      FirstIsTaken(s, r, n);
    } else if TakingCompletes(s, n) {
      LastIsTaken(s, r, n);
    } else {
      MiddleIsTaken(s, r, n);
    }
  }

  /** However often a chunk arrives, the receiver takes it once. */
  lemma {:induction false} RepeatsAreTakenOnce(s: SenderState, r: ReceiverState, n: uint8, times: nat)
    requires InStep(s, r) && n >= 1 && (s.currentPackage < s.maxPackageIndex || TakingCompletes(s, n))
    requires s.currentPackage == 1 ==> n <= |r.data|
    requires times >= 1
    ensures HearTimes(r, GetPayload(s, n).1, times) == Hear(r, GetPayload(s, n).1)
    decreases times
  {
    var p := GetPayload(s, n).1;
    if times == 1 {
      assert HearTimes(r, p, 0) == r;
    } else {
      RepeatsAreTakenOnce(s, r, n, times - 1);
      OfferIsTaken(s, r, n);
      RepeatIsIgnored(s, Hear(r, p), n);
    }
  }

  /** A repeat goes unnoticed exactly when the receive buffer can hold the first field. */
  lemma RepeatsExactly(s: SenderState, r: ReceiverState, n: uint8)
    requires InStep(s, r) && n >= 1 && (s.currentPackage < s.maxPackageIndex || TakingCompletes(s, n))
    ensures var p := GetPayload(s, n).1;
            Hear(Hear(r, p), p) == Hear(r, p) <==> s.currentPackage > 1 || n <= |r.data|
  {
    var p := GetPayload(s, n).1;
    if s.currentPackage > 1 || n <= |r.data| {
      OfferIsTaken(s, r, n);
      RepeatIsIgnored(s, Hear(r, p), n);
    } else {
      AwaitedHeard(r, p);
      assert Hear(r, p).currentOffset == |r.data|;
      assert Hear(Hear(r, p), p).confirm != Hear(r, p).confirm;
    }
  }

  // ----- patience -----------------------------------------------------------------

  function MissTimes(s: SenderState, times: nat): SenderState {
    if times == 0 then s else var s' := MissTimes(s, times - 1); Confirm(s', !s'.expected)
  }

  /** Wrong bits in a row only count; the one that makes the count exceed the limit, and no
      earlier one, starts the resync, and the awaited bit stays what it was. */
  lemma {:induction false} WaitsOutPatience(s: SenderState, times: nat)
    requires (s.phase.Sending? || s.phase.WaitUntilNextConfirm?) && s.maxWaitCount < 0xFFFF
    requires s.waitCount + times <= s.maxWaitCount + 1
    ensures MissTimes(s, times) == if s.waitCount + times <= s.maxWaitCount || times == 0
                                   then s.(waitCount := s.waitCount + times)
                                   else s.(waitCount := s.maxWaitCount + 1, phase := Resync)
    decreases times
  {
    if times == 0 {
    } else {
      WaitsOutPatience(s, times - 1);
      OneMiss(MissTimes(s, times - 1));
    }
  }

  lemma OneMiss(s: SenderState)
    requires (s.phase.Sending? || s.phase.WaitUntilNextConfirm?) && s.waitCount <= s.maxWaitCount < 0xFFFF
    ensures Confirm(s, !s.expected) == if s.waitCount < s.maxWaitCount then s.(waitCount := s.waitCount + 1)
                                       else s.(waitCount := s.maxWaitCount + 1, phase := Resync)
  {
  }

  // ----- a whole transfer on a lossy link -----------------------------------------

  /** One packet, which arrives or not, and one acknowledgement, which is heard or not. */
  datatype Turn = Turn(arrives: bool, heard: bool)
  {
    predicate Good() { arrives && heard }
  }

  type Ends = (SenderState, ReceiverState)

  function Play(x: Ends, n: uint8, t: Turn): Ends
    requires AnyState(x.0, x.1)
  {
    var (s1, p) := GetPayload(x.0, n);
    var r1 := if t.arrives then Hear(x.1, p) else x.1;
    (if t.heard then Confirm(s1, r1.confirm) else s1, r1)
  }

  /** The chunk on offer has not arrived yet. */
  predicate Offered(s: SenderState, r: ReceiverState) {
    && r.confirm != s.expected
    && (if s.phase.WaitUntilNextConfirm? then AtClose(r, s.data)
        else AtChunk(r, s.data, s.currentPackage, s.currentOffset))
  }

  /** It has, and its acknowledgement was not heard. */
  predicate Arrived(s: SenderState, r: ReceiverState, n: uint8)
    requires s.currentOffset <= |s.data|
  {
    && r.confirm == s.expected && !s.phase.SendPending?
    && if s.phase.WaitUntilNextConfirm? then r.finished && Holds(r.data, s.data)
       else TookChunk(s, r, n) && s.bytesLastPayload == Min(|s.data| - s.currentOffset, n)
  }

  predicate Shape(s: SenderState, r: ReceiverState, n: uint8) {
    && AnyState(s, r) && s.maxPackageIndex >= 2 && 1 <= n <= |r.data| && |s.data| <= |r.data|
    && match s.phase
       case SendPending => s.currentPackage == 1 && s.currentOffset == 0 && RoomLeft(s, n)
       case Sending => OnTheWay(s) && (s.currentPackage == 1 ==> s.currentOffset == 0) && RoomLeft(s, n)
       case WaitUntilNextConfirm => s.currentPackage == 2
       case Idle => true
       case _ => false
  }

  /** Every state of a transfer that is not given up. */
  predicate UnderWay(s: SenderState, r: ReceiverState, n: uint8) {
    && Shape(s, r, n)
    && if s.phase.Idle? then r.finished && Holds(r.data, s.data) else Offered(s, r) || Arrived(s, r, n)
  }

  /** Chunks of `n` bytes that `left` bytes need, one at least. */
  function Chunks(left: nat, n: nat): (k: nat)
    requires n >= 1
    ensures k >= 1
    decreases left
  {
    if left <= n then 1 else 1 + Chunks(left - n, n)
  }

  /** Acknowledgements still to come; a message of one chunk needs a closing packet. */
  function Missing(s: SenderState, n: uint8): nat
    requires n >= 1 && s.currentOffset <= |s.data|
  {
    match s.phase
    case Idle => 0
    case WaitUntilNextConfirm => 1
    case _ => Chunks(|s.data| - s.currentOffset, n) + (if s.currentPackage == 1 && |s.data| <= n then 1 else 0)
  }

  lemma StillOffered(s: SenderState, r: ReceiverState, n: uint8)
    requires UnderWay(s, r, n) && !s.phase.Idle?
    ensures var s1 := GetPayload(s, n).0;
            && UnderWay(s1, r, n) && (Offered(s, r) ==> Offered(s1, r)) && (Arrived(s, r, n) ==> Arrived(s1, r, n))
            && !s1.phase.SendPending? && Missing(s1, n) == Missing(s, n) && s1.waitCount == s.waitCount
            && s1.maxWaitCount == s.maxWaitCount && s1.data == s.data
            && (s1.phase.Sending? ==> s1.bytesLastPayload == Min(|s.data| - s.currentOffset, n))
  {
  }

  lemma ArrivalTakes(s: SenderState, r: ReceiverState, n: uint8)
    requires UnderWay(s, r, n) && !s.phase.Idle?
    ensures var (s1, p) := GetPayload(s, n);
            var r1 := Hear(r, p);
            UnderWay(s1, r1, n) && Arrived(s1, r1, n) && |r1.data| == |r.data|
  {
    StillOffered(s, r, n);
    LimitLeavesLast(s, n);
    if s.phase.WaitUntilNextConfirm? {
      ClosingArrives(s, r, n);
    } else if Offered(s, r) {
      OfferIsTaken(s, r, n);
    } else {
      RepeatIsIgnored(s, r, n);
    }
  }

  lemma ClosingArrives(s: SenderState, r: ReceiverState, n: uint8)
    requires UnderWay(s, r, n) && s.phase.WaitUntilNextConfirm?
    ensures var r1 := Hear(r, GetPayload(s, n).1);
            r1.finished && Holds(r1.data, s.data) && r1.confirm == s.expected && |r1.data| == |r.data|
            && r1.currentOffset <= |r1.data| && r1.maxPackageIndex == r.maxPackageIndex
  {
    if !r.finished {
      CloseHeard(r, GetPayload(s, n).1);
      var d := Overlay(r.data, r.currentOffset, Zeros(n));
      assert d[..|s.data|] == r.data[..|s.data|];
    }
  }

  /** The awaited bit brings the sender exactly one step further. */
  lemma AcknowledgementMoves(s: SenderState, r: ReceiverState, n: uint8)
    requires UnderWay(s, r, n) && !s.phase.Idle? && Arrived(s, r, n)
    ensures var s' := Confirm(s, r.confirm);
            UnderWay(s', r, n) && Missing(s', n) == Missing(s, n) - 1 && (s'.phase.Idle? || s'.waitCount == 0)
            && s'.maxWaitCount == s.maxWaitCount && s'.data == s.data
  {
    if s.phase.Sending? {
      LimitLeavesLast(s, n);
      SendingMoves(s, r, n);
    }
  }

  lemma SendingMoves(s: SenderState, r: ReceiverState, n: uint8)
    requires UnderWay(s, r, n) && s.phase.Sending? && Arrived(s, r, n)
    requires s.currentPackage < s.maxPackageIndex || |s.data| <= s.currentOffset + n
    requires s.currentPackage < s.maxPackageIndex ==>
               |s.data| - s.currentOffset - n <= Room(s.currentPackage + 1, s.maxPackageIndex, n)
    ensures var s' := Confirm(s, r.confirm);
            UnderWay(s', r, n) && Missing(s', n) == Missing(s, n) - 1 && (s'.phase.Idle? || s'.waitCount == 0)
  {
    FirstTaken(s, r, n);
    if |s.data| <= s.currentOffset + n {
      LastMoves(s, r, n);
    } else {
      MiddleMoves(s, r, n);
    }
  }

  /** What the first chunk left in the buffer. */
  lemma FirstTaken(s: SenderState, r: ReceiverState, n: uint8)
    requires s.currentOffset <= |s.data| <= |r.data| && n >= 1 && TookChunk(s, r, n)
    ensures s.currentPackage == 1 && |s.data| <= n ==> AtClose(r, s.data)
    ensures s.currentPackage == 1 && |s.data| > n ==> AtChunk(r, s.data, 2, n)
  {
    if s.currentPackage == 1 {
      if |s.data| <= n {
        assert r.data[..n][..|s.data|] == r.data[..|s.data|];
        assert (s.data[..|s.data|] + Zeros(n - |s.data|))[..|s.data|] == s.data;
      } else {
        assert r.data[..n] == s.data[..n] + Zeros(0) == s.data[..n];
      }
    }
  }

  lemma LastMoves(s: SenderState, r: ReceiverState, n: uint8)
    requires UnderWay(s, r, n) && s.phase.Sending? && Arrived(s, r, n) && |s.data| <= s.currentOffset + n
    requires s.currentPackage == 1 ==> AtClose(r, s.data)
    ensures var s' := Confirm(s, r.confirm);
            UnderWay(s', r, n) && Missing(s', n) == Missing(s, n) - 1 && (s'.phase.Idle? || s'.waitCount == 0)
  {
  }

  lemma MiddleMoves(s: SenderState, r: ReceiverState, n: uint8)
    requires UnderWay(s, r, n) && s.phase.Sending? && Arrived(s, r, n) && |s.data| > s.currentOffset + n
    requires s.currentPackage < s.maxPackageIndex
    requires |s.data| - s.currentOffset - n <= Room(s.currentPackage + 1, s.maxPackageIndex, n)
    requires s.currentPackage == 1 ==> AtChunk(r, s.data, 2, n)
    ensures var s' := Confirm(s, r.confirm);
            UnderWay(s', r, n) && Missing(s', n) == Missing(s, n) - 1 && (s'.phase.Idle? || s'.waitCount == 0)
  {
    var s' := Confirm(s, r.confirm);
    assert s'.currentOffset == s.currentOffset + n && s'.currentPackage == s.currentPackage + 1;
  }

  lemma MissOnlyCounts(s: SenderState, r: ReceiverState, n: uint8)
    requires UnderWay(s, r, n) && (s.phase.Sending? || s.phase.WaitUntilNextConfirm?) && Offered(s, r)
    requires s.waitCount < s.maxWaitCount
    ensures Confirm(s, r.confirm) == s.(waitCount := s.waitCount + 1)
    ensures UnderWay(Confirm(s, r.confirm), r, n) && Missing(Confirm(s, r.confirm), n) == Missing(s, n)
  {
  }

  lemma IdleStays(s: SenderState, r: ReceiverState, n: uint8, t: Turn)
    requires UnderWay(s, r, n) && s.phase.Idle?
    ensures var y := Play((s, r), n, t);
            y.1 == r && y.0.phase.Idle? && y.0.data == s.data && UnderWay(y.0, y.1, n)
  {
  }

  predicate HasPatience(s: SenderState, misses: nat) {
    s.phase.Idle? || s.waitCount + misses <= s.maxWaitCount
  }

  lemma PlayMoves(x: Ends, n: uint8, t: Turn)
    requires UnderWay(x.0, x.1, n) && !x.0.phase.Idle? && (t.Good() || HasPatience(x.0, 1))
    ensures var y := Play(x, n, t);
            && UnderWay(y.0, y.1, n) && y.0.data == x.0.data && y.0.maxWaitCount == x.0.maxWaitCount
            && Missing(y.0, n) <= Missing(x.0, n) - (if t.Good() then 1 else 0)
            && (y.0.phase.Idle? || y.0.waitCount <= if t.Good() then 0 else x.0.waitCount + 1)
  {
    var (s, r) := x;
    var (s1, p) := GetPayload(s, n);
    StillOffered(s, r, n);
    if t.arrives {
      ArrivalTakes(s, r, n);
    }
    var r1 := if t.arrives then Hear(r, p) else r;
    if t.heard {
      if Arrived(s1, r1, n) {
        AcknowledgementMoves(s1, r1, n);
      } else {
        MissOnlyCounts(s1, r1, n);
      }
    }
  }

  /** Every stretch of turns without a good one is short enough for the patience. */
  predicate Patient(ts: seq<Turn>, misses: nat, limit: nat)
    decreases |ts|
  {
    || ts == []
    || (if ts[0].Good() then Patient(ts[1..], limit, limit) else misses > 0 && Patient(ts[1..], misses - 1, limit))
  }

  function GoodTurns(ts: seq<Turn>): nat
    decreases |ts|
  {
    if ts == [] then 0 else (if ts[0].Good() then 1 else 0) + GoodTurns(ts[1..])
  }

  function PlayAll(x: Ends, n: uint8, ts: seq<Turn>): (y: Ends)
    requires AnyState(x.0, x.1)
    decreases |ts|
  {
    if ts == [] then x
    else
      PlayKeepsSizes(x, n, ts[0]);
      PlayAll(Play(x, n, ts[0]), n, ts[1..])
  }

  lemma PlayKeepsSizes(x: Ends, n: uint8, t: Turn)
    requires AnyState(x.0, x.1)
    ensures AnyState(Play(x, n, t).0, Play(x, n, t).1)
  {
  }

  lemma {:induction false} PlayAllMoves(x: Ends, n: uint8, ts: seq<Turn>, misses: nat)
    requires UnderWay(x.0, x.1, n) && HasPatience(x.0, misses) && Patient(ts, misses, x.0.maxWaitCount)
    ensures var y := PlayAll(x, n, ts);
            && UnderWay(y.0, y.1, n) && y.0.data == x.0.data
            && (Missing(y.0, n) == 0 || Missing(y.0, n) + GoodTurns(ts) <= Missing(x.0, n))
    decreases |ts|
  {
    if ts == [] {
    } else {
      var y := Play(x, n, ts[0]);
      PlayKeepsSizes(x, n, ts[0]);
      if x.0.phase.Idle? {
        IdleStays(x.0, x.1, n, ts[0]);
        PlayAllIdle(y, n, ts[1..]);
      } else {
        PlayMoves(x, n, ts[0]);
        PlayAllMoves(y, n, ts[1..], if ts[0].Good() then x.0.maxWaitCount else misses - 1);
      }
    }
  }

  lemma {:induction false} PlayAllIdle(x: Ends, n: uint8, ts: seq<Turn>)
    requires UnderWay(x.0, x.1, n) && x.0.phase.Idle?
    ensures var y := PlayAll(x, n, ts);
            UnderWay(y.0, y.1, n) && y.0.phase.Idle? && y.0.data == x.0.data
    decreases |ts|
  {
    if ts == [] {
    } else {
      PlayKeepsSizes(x, n, ts[0]);
      IdleStays(x.0, x.1, n, ts[0]);
      PlayAllIdle(Play(x, n, ts[0]), n, ts[1..]);
    }
  }

  lemma {:induction false} ChunksExact(left: nat, n: nat)
    requires n >= 1
    ensures left <= Chunks(left, n) * n && (left > 0 ==> Chunks(left, n) * n < left + n)
    decreases left
  {
    if left <= n {
    } else {
      ChunksExact(left - n, n);
      assert Chunks(left, n) * n == Chunks(left - n, n) * n + n;
    }
  }

  /** From two ends in phase, whatever is lost and repeated in between: if no stretch of
      turns without a full exchange outlasts the patience, then after as many full
      exchanges as the message has chunks (one more for a single chunk) it has arrived,
      byte for byte, and the sender is idle. */
  lemma LossyTransfer(s: SenderState, r: ReceiverState, m: Message, n: uint8, ts: seq<Turn>)
    requires AnyState(s, r) && LinkInv(s, r, None, false) && s.phase.Idle? && Fresh(r)
    requires |m| <= |r.data| && 1 <= n <= |r.data| && |m| <= s.maxPackageIndex * n
    requires Patient(ts, s.maxWaitCount, s.maxWaitCount)
    requires GoodTurns(ts) >= Chunks(|m|, n) + (if |m| <= n then 1 else 0)
    ensures var y := PlayAll((SetData(s, m), r), n, ts); Delivered(y.0, y.1, m)
  {
    AllRoom(s.maxPackageIndex, n);
    PlayAllMoves((SetData(s, m), r), n, ts, s.maxWaitCount);
    var y := PlayAll((SetData(s, m), r), n, ts);
    NothingMissing(y.0, n);
  }

  lemma NothingMissing(s: SenderState, n: uint8)
    requires n >= 1 && s.currentOffset <= |s.data|
    ensures Missing(s, n) == 0 <==> s.phase.Idle?
  {
  }
}
