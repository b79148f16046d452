/** Recovery of the stubborn transfer from any state, and delivery on a clean link.
    A lossless round is one data packet that arrives followed by one acknowledgement
    that arrives. */
module StubbornRecovery {
  import opened Widths
  import opened StubbornEndpoints
  import opened StubbornLink

  /** Any contents of the two structures in which no read goes past a buffer. */
  predicate AnyState(s: SenderState, r: ReceiverState) {
    && s.currentOffset <= |s.data| && r.currentOffset <= |r.data|
    && s.maxPackageIndex == r.maxPackageIndex
    && s.maxWaitCount < 0xFFFF
  }

  function Round(s: SenderState, r: ReceiverState, n: uint8): (SenderState, ReceiverState)
    requires AnyState(s, r)
  {
    var (s1, p) := GetPayload(s, n);
    var r1 := Hear(r, p);
    (Confirm(s1, r1.confirm), r1)
  }

  lemma RoundKeepsAnyState(s: SenderState, r: ReceiverState, n: uint8)
    requires AnyState(s, r)
    ensures AnyState(Round(s, r, n).0, Round(s, r, n).1)
  {
  }

  function Rounds(s: SenderState, r: ReceiverState, sizes: seq<uint8>): (SenderState, ReceiverState)
    requires AnyState(s, r)
    decreases |sizes|
  {
    if sizes == [] then (s, r)
    else
      RoundKeepsAnyState(s, r, sizes[0]);
      var (s', r') := Round(s, r, sizes[0]);
      Rounds(s', r', sizes[1..])
  }

  /** Rounds without the awaited confirm bit until the sender gives up; the 16-bit
      counter may start at its last value and wrap once. */
  function PatienceLeft(s: SenderState): nat {
    if s.waitCount == 0xFFFF then s.maxWaitCount + 2
    else if s.waitCount >= s.maxWaitCount then 1
    else s.maxWaitCount - s.waitCount + 1
  }

  /** A resync packet toggles the receiver's bit, so it takes one or two. */
  function ResyncLeft(s: SenderState, r: ReceiverState): nat {
    if r.confirm == s.expected then 2 else 1
  }

  /** Rounds for `left` more bytes, each of which may exhaust the patience afresh. */
  function ByteRounds(left: nat, patience: nat): nat {
    if left == 0 then 0 else ByteRounds(left - 1, patience) + patience + 2
  }

  lemma ByteRoundsProduct(left: nat, patience: nat)
    ensures ByteRounds(left, patience) == left * (patience + 2)
  {
  }

  function SendingLeft(s: SenderState): nat
    requires s.currentOffset <= |s.data|
  {
    ByteRounds(|s.data| - s.currentOffset, s.maxWaitCount) + PatienceLeft(s) + s.maxWaitCount + 3
  }

  /** Rounds after which the sender is certainly idle. */
  function RoundsLeft(s: SenderState, r: ReceiverState): nat
    requires AnyState(s, r)
  {
    match s.phase
    case Idle => 0
    case Resync => ResyncLeft(s, r)
    case WaitUntilNextConfirm => PatienceLeft(s) + 2
    case Sending => SendingLeft(s)
    case SendPending => SendingLeft(s)
    case ResyncThenSend => ResyncLeft(s, r) + SendingLeft(s)
  }

  lemma {:induction false} ByteRoundsShrink(left: nat, fewer: nat, patience: nat)
    requires fewer < left
    ensures ByteRounds(fewer, patience) + patience + 2 <= ByteRounds(left, patience)
  {
    if fewer < left - 1 {
      ByteRoundsShrink(left - 1, fewer, patience);
    }
  }

  lemma SendingRoundShrinks(s: SenderState, r: ReceiverState, n: uint8)
    requires AnyState(s, r) && n >= 1 && (s.phase.Sending? || s.phase.SendPending?)
    ensures AnyState(Round(s, r, n).0, Round(s, r, n).1)
    ensures RoundsLeft(Round(s, r, n).0, Round(s, r, n).1) < SendingLeft(s)
  {
    RoundKeepsAnyState(s, r, n);
    var (s', r') := Round(s, r, n);
    SendingRoundMoves(s, r, n);
    if s'.currentOffset > s.currentOffset {
      ByteRoundsShrink(|s.data| - s.currentOffset, |s.data| - s'.currentOffset, s.maxWaitCount);
    }
  }

  /** A round either moves the offset or uses up patience. */
  lemma SendingRoundMoves(s: SenderState, r: ReceiverState, n: uint8)
    requires AnyState(s, r) && n >= 1 && (s.phase.Sending? || s.phase.SendPending?)
    ensures var (s', r') := Round(s, r, n);
            && s'.data == s.data && s'.maxWaitCount == s.maxWaitCount
            && if s'.phase.Sending? then
                 || (s'.currentOffset > s.currentOffset && s'.waitCount == 0)
                 || (s'.currentOffset == s.currentOffset && PatienceLeft(s') < PatienceLeft(s))
               else if s'.phase.WaitUntilNextConfirm? then PatienceLeft(s') == s.maxWaitCount + 1
               else s'.phase.Idle? || s'.phase.Resync?
  {
    var (s1, p) := GetPayload(s, n);
    AnswerMoves(s, n, Hear(r, p).confirm);
  }

  /** Whatever the answer is. */
  lemma AnswerMoves(s: SenderState, n: uint8, confirm: bool)
    requires s.currentOffset <= |s.data| && s.maxWaitCount < 0xFFFF && n >= 1
    requires s.phase.Sending? || s.phase.SendPending?
    ensures var s' := Confirm(GetPayload(s, n).0, confirm);
            && s'.data == s.data && s'.maxWaitCount == s.maxWaitCount
            && if s'.phase.Sending? then
                 || (s'.currentOffset > s.currentOffset && s'.waitCount == 0)
                 || (s'.currentOffset == s.currentOffset && PatienceLeft(s') < PatienceLeft(s))
               else if s'.phase.WaitUntilNextConfirm? then PatienceLeft(s') == s.maxWaitCount + 1
               else s'.phase.Idle? || s'.phase.Resync?
  {
  }

  lemma RoundShrinks(s: SenderState, r: ReceiverState, n: uint8)
    requires AnyState(s, r) && n >= 1
    ensures AnyState(Round(s, r, n).0, Round(s, r, n).1)
    ensures var (s', r') := Round(s, r, n);
            if s.phase.Idle? then s'.phase.Idle? else RoundsLeft(s', r') < RoundsLeft(s, r)
  {
    RoundKeepsAnyState(s, r, n);
    if s.phase.Sending? || s.phase.SendPending? {
      SendingRoundShrinks(s, r, n);
    }
  }

  lemma NothingLeftMeansIdle(s: SenderState, r: ReceiverState)
    requires AnyState(s, r) && RoundsLeft(s, r) == 0
    ensures s.phase.Idle?
  {
  }

  lemma RoundsUnfold(s: SenderState, r: ReceiverState, sizes: seq<uint8>)
    requires AnyState(s, r) && sizes != [] && sizes[0] >= 1
    ensures var x := Round(s, r, sizes[0]);
            AnyState(x.0, x.1) && Rounds(s, r, sizes) == Rounds(x.0, x.1, sizes[1..])
  {
    RoundKeepsAnyState(s, r, sizes[0]);
  }

  /** Self-stabilisation: whatever the two ends held, that many lossless rounds leave the
      sender idle. */
  lemma {:induction false} Stabilises(s: SenderState, r: ReceiverState, sizes: seq<uint8>)
    requires AnyState(s, r) && (forall i :: 0 <= i < |sizes| ==> sizes[i] >= 1)
    requires |sizes| >= RoundsLeft(s, r)
    ensures Rounds(s, r, sizes).0.phase.Idle?
    decreases |sizes|
  {
    if sizes == [] {
      NothingLeftMeansIdle(s, r);
    } else {
      RoundShrinks(s, r, sizes[0]);
      RoundsUnfold(s, r, sizes);
      var x := Round(s, r, sizes[0]);
      Stabilises(x.0, x.1, sizes[1..]);
    }
  }

  /** The bound does not depend on the receiver and is linear in the message. */
  lemma RoundsBound(s: SenderState, r: ReceiverState)
    requires AnyState(s, r)
    ensures RoundsLeft(s, r) <= |s.data| * (s.maxWaitCount + 2) + 2 * s.maxWaitCount + 7
  {
    ByteRoundsProduct(|s.data|, s.maxWaitCount);
    if s.currentOffset > 0 {
      ByteRoundsShrink(|s.data|, |s.data| - s.currentOffset, s.maxWaitCount);
    }
  }

  lemma MorePatienceMoreRounds(length: nat, patience: nat, most: nat)
    requires patience <= most
    ensures length * (patience + 2) <= length * (most + 2)
  {
  }

  /** No rate sets a patience that the counter cannot exceed, so from any contents of the
      two structures, and at every ratio and burst, one bound does. */
  lemma StabilisesAtEveryRate(s: SenderState, r: ReceiverState, tlmRatio: uint8, tlmBurst: uint8, sizes: seq<uint8>)
    requires s.currentOffset <= |s.data| && r.currentOffset <= |r.data| && s.maxPackageIndex == r.maxPackageIndex
    requires tlmBurst > 0 && (forall i :: 0 <= i < |sizes| ==> sizes[i] >= 1)
    requires |sizes| >= |s.data| * (MAX_PATIENCE + 2) + 2 * MAX_PATIENCE + 7
    ensures AnyState(UpdateRate(s, tlmRatio, tlmBurst), r)
    ensures Rounds(UpdateRate(s, tlmRatio, tlmBurst), r, sizes).0.phase.Idle?
  {
    var s0 := UpdateRate(s, tlmRatio, tlmBurst);
    PatienceIsBounded(s, tlmRatio, tlmBurst);
    RoundsBound(s0, r);
    MorePatienceMoreRounds(|s.data|, s0.maxWaitCount, MAX_PATIENCE);
    Stabilises(s0, r, sizes);
  }

  /** A round that completes a resync leaves both ends in phase, whatever they held
      before: the receiver waits for package 1 and its bit is not the awaited one. */
  lemma ResyncRestoresPhase(s: SenderState, r: ReceiverState, n: uint8)
    requires AnyState(s, r) && s.maxPackageIndex >= 2
    requires s.phase.Resync? && Round(s, r, n).0.phase.Idle?
    ensures var (s', r') := Round(s, r, n);
            Fresh(r') && r'.confirm != s'.expected && LinkInv(s', r', None, false)
  {
  }

  /** The same for a resync that a new message interrupted: its transfer starts in phase. */
  lemma ResyncThenSendRestoresPhase(s: SenderState, r: ReceiverState, n: uint8)
    requires AnyState(s, r) && s.maxPackageIndex >= 2
    requires s.phase.ResyncThenSend? && s.currentOffset == 0 && s.currentPackage == 1 && |s.data| <= |r.data|
    requires Round(s, r, n).0.phase.Sending?
    ensures var (s', r') := Round(s, r, n);
            Fresh(r') && r'.confirm != s'.expected && LinkInv(s', r', None, false)
  {
  }

  // ----- a whole transfer on a clean link -----

  /** Lossless rounds with one payload size until the sender is idle. */
  function CleanRun(s: SenderState, r: ReceiverState, n: uint8): (SenderState, ReceiverState)
    requires AnyState(s, r) && n >= 1
    decreases RoundsLeft(s, r)
  {
    if s.phase.Idle? then (s, r)
    else
      RoundShrinks(s, r, n);
      var x := Round(s, r, n);
      CleanRun(x.0, x.1, n)
  }

  /** The sender is about to offer chunk `currentPackage` and the receiver waits for it. */
  predicate InStep(s: SenderState, r: ReceiverState) {
    && AnyState(s, r) && LinkInv(s, r, None, false)
    && (s.phase.Sending? || s.phase.SendPending?)
    && AtChunk(r, s.data, s.currentPackage, s.currentOffset)
  }

  lemma MiddleReceiver(s: SenderState, r: ReceiverState, n: uint8)
    requires InStep(s, r) && n >= 1 && s.currentPackage < s.maxPackageIndex
    requires s.currentOffset + n < |s.data|
    ensures var r' := Round(s, r, n).1;
            && r'.confirm == s.expected && r'.maxPackageIndex == r.maxPackageIndex && |r'.data| == |r.data|
            && AtChunk(r', s.data, s.currentPackage + 1, s.currentOffset + n)
  {
    MiddleChunk(s, n);
    var p := GetPayload(s, n).1;
    AcceptAdvances(r, p.payload, s.data, s.currentPackage, n);
    AwaitedHeard(r, p);
  }

  lemma MiddleChunk(s: SenderState, n: uint8)
    requires n >= 1 && s.currentOffset + n < |s.data| && (s.phase.Sending? || s.phase.SendPending?)
    ensures var p := GetPayload(s, n).1;
            p.index == s.currentPackage && |p.payload| == n
            && p.payload[..n] == s.data[s.currentOffset..s.currentOffset + n]
  {
  }

  lemma AwaitedHeard(r: ReceiverState, p: Packet)
    requires r.currentOffset <= |r.data| && !r.finished && 1 <= p.index == r.currentPackage < r.maxPackageIndex
    ensures Hear(r, p) == AcceptChunk(r, p.payload)
  {
  }

  lemma MiddleSender(s: SenderState, n: uint8)
    requires n >= 1 && s.currentOffset + n < |s.data| && s.currentPackage < 255
    requires s.phase.Sending? || s.phase.SendPending?
    ensures var s' := Confirm(GetPayload(s, n).0, s.expected);
            s' == s.(phase := Sending, bytesLastPayload := n, currentOffset := s.currentOffset + n,
                     currentPackage := s.currentPackage + 1, expected := !s.expected, waitCount := 0)
  {
  }

  lemma MiddleRound(s: SenderState, r: ReceiverState, n: uint8)
    requires InStep(s, r) && n >= 1 && s.currentPackage < s.maxPackageIndex
    requires s.currentOffset + n < |s.data|
    ensures var (s', r') := Round(s, r, n);
            InStep(s', r') && s' == s'.(data := s.data, maxPackageIndex := s.maxPackageIndex)
            && s'.currentOffset == s.currentOffset + n && s'.currentPackage == s.currentPackage + 1
            && |r'.data| == |r.data|
  {
    MiddleReceiver(s, r, n);
    MiddleSender(s, n);
    var (s', r') := Round(s, r, n);
    assert Untaken(s', r');
  }

  /** Both ends after a completed transfer. */
  predicate Delivered(s: SenderState, r: ReceiverState, m: Message) {
    s.phase.Idle? && r.finished && Holds(r.data, m)
  }

  lemma ClosingRound(s: SenderState, r: ReceiverState, n: uint8)
    requires AnyState(s, r) && n >= 1 && s.maxPackageIndex >= 2
    requires s.phase.WaitUntilNextConfirm? && r.confirm != s.expected && AtClose(r, s.data)
    ensures Delivered(Round(s, r, n).0, Round(s, r, n).1, s.data)
  {
    var z := Round(s, r, n);
    assert z.1 == AcceptChunk(r.(finished := true), Zeros(n));
    assert z.1.data[..|s.data|] == r.data[..|s.data|];
  }

  /** One chunk holds the whole message; the closing packet is still to come. */
  lemma OnlyChunkRound(s: SenderState, r: ReceiverState, n: uint8)
    requires InStep(s, r) && n >= 1 && s.currentPackage == 1 && |s.data| <= n
    ensures var (s', r') := Round(s, r, n);
            && s'.phase.WaitUntilNextConfirm? && s'.data == s.data
            && r'.confirm != s'.expected && AtClose(r', s.data)
  {
    var (s1, p) := GetPayload(s, n);
    assert p.payload[..|s.data|] == s.data[0..|s.data|];
    AcceptAdvances(r, p.payload, s.data, 1, |s.data|);
    assert Hear(r, p) == AcceptChunk(r, p.payload);
  }

  lemma LastRound(s: SenderState, r: ReceiverState, n: uint8)
    requires InStep(s, r) && n >= 1 && TakingCompletes(s, n)
    ensures Delivered(Round(s, r, n).0, Round(s, r, n).1, s.data)
  {
    var p := GetPayload(s, n).1;
    var m, o := s.data, s.currentOffset;
    LastOffered(s, n);
    OverlayExtends(r.data, o, p.payload, m, |m| - o);
    CloseHeard(r, p);
  }

  lemma LastOffered(s: SenderState, n: uint8)
    requires s.currentOffset <= |s.data| && n >= 1 && TakingCompletes(s, n)
    requires s.phase.Sending? || s.phase.SendPending?
    ensures var (s1, p) := GetPayload(s, n);
            && p.index == 0 && |s.data| - s.currentOffset <= |p.payload|
            && p.payload[..|s.data| - s.currentOffset] == s.data[s.currentOffset..]
            && Confirm(s1, s.expected).phase.Idle?
  {
  }

  lemma CloseHeard(r: ReceiverState, p: Packet)
    requires r.currentOffset <= |r.data| && r.maxPackageIndex >= 2
    requires !r.finished && p.index == 0 && r.currentPackage > 1
    ensures Hear(r, p) == AcceptChunk(r.(finished := true), p.payload)
  {
  }

  /** Past the last usable package index the receiver has been reset by the collision and
      never finishes. */
  predicate Derailed(s: SenderState, r: ReceiverState, n: uint8) {
    && AnyState(s, r) && s.maxPackageIndex >= 2 && !r.finished
    && match s.phase
       case Sending =>
         && r.confirm != s.expected && s.currentPackage >= s.maxPackageIndex
         && s.currentPackage <= s.maxPackageIndex + 1
         && (if s.currentPackage == s.maxPackageIndex then !TakingCompletes(s, n) else Fresh(r))
         && s.currentPackage - 1 <= s.currentOffset < |s.data|
       case Resync => r.confirm != s.expected
       case Idle => true
       case _ => false
  }

  lemma DerailedRound(s: SenderState, r: ReceiverState, n: uint8)
    requires Derailed(s, r, n) && n >= 1 && !s.phase.Idle?
    ensures Derailed(Round(s, r, n).0, Round(s, r, n).1, n)
  {
    if s.phase.Sending? {
      if s.currentPackage == s.maxPackageIndex {
        DerailedAtLimit(s, r, n);
      } else {
        DerailedPastLimit(s, r, n);
      }
    }
  }

  lemma DerailedAtLimit(s: SenderState, r: ReceiverState, n: uint8)
    requires Derailed(s, r, n) && n >= 1 && s.phase.Sending? && s.currentPackage == s.maxPackageIndex
    ensures Derailed(Round(s, r, n).0, Round(s, r, n).1, n)
  {
    LimitSent(s, n);
    LimitHeard(r, GetPayload(s, n).1);
  }

  lemma LimitSent(s: SenderState, n: uint8)
    requires s.currentOffset <= |s.data| && n >= 1 && s.phase.Sending? && !TakingCompletes(s, n)
    requires s.currentPackage == s.maxPackageIndex >= 2 && s.currentPackage - 1 <= s.currentOffset
    ensures GetPayload(s, n).1.index == s.maxPackageIndex
    ensures var s' := Confirm(GetPayload(s, n).0, s.expected);
            && s'.phase.Sending? && s'.expected == !s.expected && s'.currentOffset == s.currentOffset + n < |s.data|
            && s'.currentPackage == s.currentPackage + 1 && s'.data == s.data && s'.maxPackageIndex == s.maxPackageIndex
            && s'.maxWaitCount == s.maxWaitCount
  {
  }

  lemma LimitHeard(r: ReceiverState, p: Packet)
    requires r.currentOffset <= |r.data| && p.index == r.maxPackageIndex
    ensures Hear(r, p) == r.(confirm := !r.confirm, currentPackage := 1, currentOffset := 0, finished := false)
  {
  }

  lemma DerailedPastLimit(s: SenderState, r: ReceiverState, n: uint8)
    requires Derailed(s, r, n) && n >= 1 && s.phase.Sending? && s.currentPackage > s.maxPackageIndex
    ensures Derailed(Round(s, r, n).0, Round(s, r, n).1, n)
  {
    var p := GetPayload(s, n).1;
    assert p.index == 0 || p.index == s.maxPackageIndex + 1;
    assert Hear(r, p) == r;
  }

  lemma {:induction false} DerailedNeverFinishes(s: SenderState, r: ReceiverState, n: uint8)
    requires Derailed(s, r, n) && n >= 1
    ensures !CleanRun(s, r, n).1.finished
    decreases RoundsLeft(s, r)
  {
    if s.phase.Idle? {
    } else {
      DerailedRound(s, r, n);
      RoundShrinks(s, r, n);
      var x := Round(s, r, n);
      DerailedNeverFinishes(x.0, x.1, n);
    }
  }

  lemma {:induction false} CleanRunIdle(s: SenderState, r: ReceiverState, n: uint8)
    requires AnyState(s, r) && n >= 1
    ensures CleanRun(s, r, n).0.phase.Idle?
    decreases RoundsLeft(s, r)
  {
    if s.phase.Idle? {
    } else {
      RoundShrinks(s, r, n);
      var x := Round(s, r, n);
      CleanRunIdle(x.0, x.1, n);
    }
  }

  /** Bytes that packages `index` .. `max` can carry. */
  function Room(index: nat, max: nat, n: nat): nat
    decreases max + 1 - index
  {
    if index > max then 0 else n + Room(index + 1, max, n)
  }

  lemma {:induction false} RoomProduct(index: nat, max: nat, n: nat)
    requires index <= max + 1
    ensures Room(index, max, n) == (max + 1 - index) * n
    decreases max + 1 - index
  {
    if index <= max {
      RoomProduct(index + 1, max, n);
      assert (max + 1 - index) * n == (max - index) * n + n;
    }
  }

  lemma AllRoom(max: nat, n: nat)
    ensures Room(1, max, n) == max * n
  {
    RoomProduct(1, max, n);
  }

  /** What comes of a transfer that stands at this chunk. */
  predicate Comes(s: SenderState, n: uint8, z: (SenderState, ReceiverState)) {
    && z.0.phase.Idle?
    && (z.1.finished <==> |s.data| - s.currentOffset <= Room(s.currentPackage, s.maxPackageIndex, n))
    && (z.1.finished ==> Holds(z.1.data, s.data))
  }

  predicate Outcome(s: SenderState, r: ReceiverState, n: uint8)
    requires AnyState(s, r) && n >= 1
  {
    Comes(s, n, CleanRun(s, r, n))
  }

  lemma SameOutcome(s: SenderState, s1: SenderState, n: uint8, z: (SenderState, ReceiverState))
    requires s1.data == s.data && s1.maxPackageIndex == s.maxPackageIndex
    requires s1.currentOffset == s.currentOffset + n && s1.currentPackage == s.currentPackage + 1 <= s.maxPackageIndex
    requires Comes(s1, n, z)
    ensures Comes(s, n, z)
  {
  }

  lemma {:induction false} CleanTransferFrom(s: SenderState, r: ReceiverState, n: uint8)
    requires InStep(s, r) && n >= 1 && s.currentPackage <= s.maxPackageIndex
    ensures Outcome(s, r, n)
    decreases |s.data| - s.currentOffset
  {
    if |s.data| <= s.currentOffset + n {
      FinalRounds(s, r, n);
    } else if s.currentPackage < s.maxPackageIndex {
      MiddleRound(s, r, n);
      CleanRunUnfold(s, r, n);
      var x := Round(s, r, n);
      CleanTransferFrom(x.0, x.1, n);
      SameOutcome(s, x.0, n, CleanRun(s, r, n));
    } else {
      DerailedTransfer(s, r, n);
    }
  }

  lemma CleanRunUnfold(s: SenderState, r: ReceiverState, n: uint8)
    requires AnyState(s, r) && n >= 1 && !s.phase.Idle?
    ensures var x := Round(s, r, n);
            AnyState(x.0, x.1) && CleanRun(s, r, n) == CleanRun(x.0, x.1, n)
  {
    RoundShrinks(s, r, n);
  }

  lemma FinalRounds(s: SenderState, r: ReceiverState, n: uint8)
    requires InStep(s, r) && n >= 1 && |s.data| <= s.currentOffset + n
    ensures Delivered(CleanRun(s, r, n).0, CleanRun(s, r, n).1, s.data)
  {
    CleanRunUnfold(s, r, n);
    if s.currentPackage == 1 {
      OnlyChunkRound(s, r, n);
      var x := Round(s, r, n);
      ClosingRound(x.0, x.1, n);
      CleanRunUnfold(x.0, x.1, n);
    } else {
      LastRound(s, r, n);
    }
  }

  lemma DerailedTransfer(s: SenderState, r: ReceiverState, n: uint8)
    requires InStep(s, r) && n >= 1 && s.currentPackage == s.maxPackageIndex
    requires s.currentOffset + n < |s.data|
    ensures var (s', r') := CleanRun(s, r, n);
            s'.phase.Idle? && !r'.finished
  {
    DerailedNeverFinishes(s, r, n);
    CleanRunIdle(s, r, n);
  }

  /** On a clean link, with both ends in phase and a receiver ready for a message, the
      message arrives whole if and only if it needs no more chunks than the resync
      index counts; otherwise a chunk index collides with the resync index. */
  lemma CleanTransfer(s: SenderState, r: ReceiverState, m: Message, n: uint8)
    requires AnyState(s, r) && LinkInv(s, r, None, false) && s.phase.Idle? && Fresh(r)
    requires |m| <= |r.data| && n >= 1
    ensures var (s', r') := CleanRun(SetData(s, m), r, n);
            && s'.phase.Idle?
            && (r'.finished <==> |m| <= s.maxPackageIndex * n)
            && (r'.finished ==> Holds(r'.data, m))
  {
    AllRoom(s.maxPackageIndex, n);
    assert InStep(SetData(s, m), r);
    CleanTransferFrom(SetData(s, m), r, n);
  }

  // ----- from any state to delivered messages -----

  /** An idle sender whose receiver waits for a first chunk, or has finished. */
  predicate Steady(s: SenderState, r: ReceiverState) {
    s.phase.Idle? && r.confirm != s.expected && (r.finished || r.currentPackage == 1)
  }

  /** A sender that was idle when it was given its message, somewhere on the way. */
  predicate OnTheWay(s: SenderState) {
    && !s.phase.ResyncThenSend?
    && (s.phase.Sending? || s.phase.SendPending? ==>
          1 <= s.currentPackage <= s.currentOffset + 1 && (s.currentPackage > 1 ==> s.currentOffset < |s.data|))
  }

  /** Whatever the receiver held, a round that makes the sender idle leaves them steady. */
  lemma RoundSteadies(s: SenderState, r: ReceiverState, n: uint8)
    requires AnyState(s, r) && s.maxPackageIndex >= 2 && n >= 1 && OnTheWay(s) && !s.phase.Idle?
    ensures var (s', r') := Round(s, r, n);
            OnTheWay(s') && (s'.phase.Idle? ==> Steady(s', r'))
  {
    var (s1, p) := GetPayload(s, n);
    var r1 := Hear(r, p);
    IdleAfterClosing(s, n, r1.confirm);
    if p.index == 0 || p.index == s.maxPackageIndex {
      ClosingHeard(r, p);
    }
  }

  /** The sender becomes idle only on the answer to a closing or a resync packet. */
  lemma IdleAfterClosing(s: SenderState, n: uint8, confirm: bool)
    requires s.currentOffset <= |s.data| && n >= 1 && OnTheWay(s) && !s.phase.Idle?
    ensures var (s1, p) := GetPayload(s, n);
            var s' := Confirm(s1, confirm);
            && OnTheWay(s')
            && (s'.phase.Idle? ==> s'.expected != confirm && (p.index == 0 || p.index == s.maxPackageIndex))
  {
    if s.phase.Sending? || s.phase.SendPending? {
      IdleAfterLastChunk(s, n, confirm);
    }
  }

  lemma IdleAfterLastChunk(s: SenderState, n: uint8, confirm: bool)
    requires s.currentOffset <= |s.data| && n >= 1 && OnTheWay(s) && (s.phase.Sending? || s.phase.SendPending?)
    ensures var (s1, p) := GetPayload(s, n);
            var s' := Confirm(s1, confirm);
            OnTheWay(s') && (s'.phase.Idle? ==> s'.expected != confirm && p.index == 0)
  {
    if confirm == s.expected {
      AfterAcknowledgement(s, n);
    } else {
      AfterMissed(s, n);
    }
  }

  lemma AfterAcknowledgement(s: SenderState, n: uint8)
    requires s.currentOffset <= |s.data| && n >= 1 && OnTheWay(s) && (s.phase.Sending? || s.phase.SendPending?)
    ensures var (s1, p) := GetPayload(s, n);
            var s' := Confirm(s1, s.expected);
            OnTheWay(s') && s'.expected != s.expected && (s'.phase.Idle? ==> p.index == 0)
  {
  }

  lemma AfterMissed(s: SenderState, n: uint8)
    requires s.currentOffset <= |s.data| && n >= 1 && OnTheWay(s) && (s.phase.Sending? || s.phase.SendPending?)
    ensures var s' := Confirm(GetPayload(s, n).0, !s.expected);
            OnTheWay(s') && !s'.phase.Idle?
  {
  }

  lemma ClosingHeard(r: ReceiverState, p: Packet)
    requires r.currentOffset <= |r.data| && r.maxPackageIndex >= 2 && (p.index == 0 || p.index == r.maxPackageIndex)
    ensures var r' := Hear(r, p); r'.finished || r'.currentPackage == 1
  {
  }

  lemma RoundKeepsSizes(s: SenderState, r: ReceiverState, n: uint8)
    requires AnyState(s, r)
    ensures var (s', r') := Round(s, r, n);
            AnyState(s', r') && s'.maxPackageIndex == s.maxPackageIndex && |r'.data| == |r.data|
  {
  }

  lemma {:induction false} CleanRunKeepsSizes(s: SenderState, r: ReceiverState, n: uint8)
    requires AnyState(s, r) && n >= 1
    ensures var (s', r') := CleanRun(s, r, n);
            AnyState(s', r') && s'.phase.Idle? && s'.maxPackageIndex == s.maxPackageIndex && |r'.data| == |r.data|
    decreases RoundsLeft(s, r)
  {
    if s.phase.Idle? {
    } else {
      CleanRunUnfold(s, r, n);
      RoundKeepsSizes(s, r, n);
      RoundShrinks(s, r, n);
      var x := Round(s, r, n);
      CleanRunKeepsSizes(x.0, x.1, n);
    }
  }

  lemma {:induction false} CleanRunSteadies(s: SenderState, r: ReceiverState, n: uint8)
    requires AnyState(s, r) && s.maxPackageIndex >= 2 && n >= 1 && OnTheWay(s)
    requires s.phase.Idle? ==> Steady(s, r)
    ensures Steady(CleanRun(s, r, n).0, CleanRun(s, r, n).1)
    decreases RoundsLeft(s, r)
  {
    if s.phase.Idle? {
    } else {
      CleanRunUnfold(s, r, n);
      RoundKeepsSizes(s, r, n);
      RoundSteadies(s, r, n);
      RoundShrinks(s, r, n);
      var x := Round(s, r, n);
      CleanRunSteadies(x.0, x.1, n);
    }
  }

  /** The receiver waits for the very chunk on offer, whatever it has written so far, and
      the indices left suffice for the message. */
  predicate Lockstep(s: SenderState, r: ReceiverState, n: uint8) {
    && AnyState(s, r) && s.maxPackageIndex >= 2 && !r.finished && r.confirm != s.expected
    && r.currentPackage == s.currentPackage
    && match s.phase
       case SendPending => OnTheWay(s) && RoomLeft(s, n)
       case Sending => OnTheWay(s) && RoomLeft(s, n)
       case WaitUntilNextConfirm => s.currentPackage == 2
       case _ => false
  }

  predicate RoomLeft(s: SenderState, n: uint8) {
    s.currentPackage <= s.maxPackageIndex
    && |s.data| - s.currentOffset <= Room(s.currentPackage, s.maxPackageIndex, n)
  }

  /** What the receiver does with a chunk it waits for. */
  lemma LockstepHears(s: SenderState, r: ReceiverState, n: uint8)
    requires Lockstep(s, r, n) && n >= 1
    ensures var r' := Round(s, r, n).1;
            && r'.confirm == s.expected
            && if s.phase.WaitUntilNextConfirm? || TakingCompletes(s, n) then r'.finished
               else !r'.finished && r'.currentPackage == s.currentPackage + 1
  {
    LimitLeavesLast(s, n);
    LockstepOffers(s, n);
    var p := GetPayload(s, n).1;
    if p.index == 0 {
      assert Hear(r, p) == AcceptChunk(r.(finished := true), p.payload);
    } else {
      assert Hear(r, p) == AcceptChunk(r, p.payload);
    }
  }

  lemma LockstepOffers(s: SenderState, n: uint8)
    requires s.currentOffset <= |s.data| && n >= 1 && OnTheWay(s) && s.maxPackageIndex >= 2
    requires s.phase.WaitUntilNextConfirm? || s.phase.Sending? || s.phase.SendPending?
    requires (s.phase.Sending? || s.phase.SendPending?) && s.currentPackage >= s.maxPackageIndex ==>
               s.currentPackage == s.maxPackageIndex && |s.data| <= s.currentOffset + n
    ensures var index := GetPayload(s, n).1.index;
            if s.phase.WaitUntilNextConfirm? || TakingCompletes(s, n) then index == 0
            else index == s.currentPackage && 1 <= index < s.maxPackageIndex
  {
  }

  lemma LimitLeavesLast(s: SenderState, n: uint8)
    requires s.currentOffset <= |s.data| && (s.phase.Sending? || s.phase.SendPending? ==> RoomLeft(s, n))
    ensures (s.phase.Sending? || s.phase.SendPending?) && s.currentPackage == s.maxPackageIndex ==>
              |s.data| <= s.currentOffset + n
    ensures (s.phase.Sending? || s.phase.SendPending?) && s.currentPackage < s.maxPackageIndex ==>
              |s.data| - s.currentOffset - n <= Room(s.currentPackage + 1, s.maxPackageIndex, n)
  {
    assert Room(s.maxPackageIndex + 1, s.maxPackageIndex, n) == 0;
  }

  lemma LockstepSends(s: SenderState, n: uint8)
    requires OnTheWay(s) && (s.phase.Sending? || s.phase.SendPending?) && s.currentOffset <= |s.data| && n >= 1
    ensures var s' := Confirm(GetPayload(s, n).0, s.expected);
            && s'.expected == !s.expected
            && if |s.data| <= s.currentOffset + n then
                 if s.currentPackage == 1 then s'.phase.WaitUntilNextConfirm? && s'.currentPackage == 2
                     else s'.phase.Idle?
               else s'.phase.Sending? && s'.currentPackage == s.currentPackage + 1 && s'.data == s.data
                    && s'.maxPackageIndex == s.maxPackageIndex && s'.currentOffset == s.currentOffset + n
  {
  }

  lemma LockstepRound(s: SenderState, r: ReceiverState, n: uint8)
    requires Lockstep(s, r, n) && n >= 1
    ensures var (s', r') := Round(s, r, n);
            if s'.phase.Idle? then r'.finished else Lockstep(s', r', n)
  {
    RoundKeepsSizes(s, r, n);
    LockstepHears(s, r, n);
    LimitLeavesLast(s, n);
    if !s.phase.WaitUntilNextConfirm? {
      LockstepSends(s, n);
    }
  }

  lemma {:induction false} LockstepFinishes(s: SenderState, r: ReceiverState, n: uint8)
    requires n >= 1 && Lockstep(s, r, n)
    ensures CleanRun(s, r, n).1.finished
    decreases RoundsLeft(s, r)
  {
    CleanRunUnfold(s, r, n);
    LockstepRound(s, r, n);
    RoundShrinks(s, r, n);
    var x := Round(s, r, n);
    if !x.0.phase.Idle? {
      LockstepFinishes(x.0, x.1, n);
    }
  }

  /** One more message on the clean link, the owner having emptied a finished buffer. */
  function NextMessage(x: (SenderState, ReceiverState), m: Message, n: uint8): (SenderState, ReceiverState)
    requires AnyState(x.0, x.1) && n >= 1
  {
    CleanRun(SetData(x.0, m), Unlock(x.1), n)
  }

  predicate Sendable(x: (SenderState, ReceiverState), m: Message, n: uint8) {
    |m| <= |x.1.data| && |m| <= x.0.maxPackageIndex * n
  }

  predicate Settled(x: (SenderState, ReceiverState)) {
    AnyState(x.0, x.1) && x.0.phase.Idle? && x.0.maxPackageIndex >= 2
  }

  lemma MessageSettles(x: (SenderState, ReceiverState), m: Message, n: uint8)
    requires Settled(x) && n >= 1
    ensures var y := NextMessage(x, m, n);
            && Settled(y) && y.0.maxPackageIndex == x.0.maxPackageIndex && |y.1.data| == |x.1.data|
            && Steady(y.0, y.1)
  {
    CleanRunKeepsSizes(SetData(x.0, m), Unlock(x.1), n);
    CleanRunSteadies(SetData(x.0, m), Unlock(x.1), n);
  }

  lemma SteadyFinishes(x: (SenderState, ReceiverState), m: Message, n: uint8)
    requires Settled(x) && n >= 1 && Steady(x.0, x.1) && Sendable(x, m, n)
    ensures NextMessage(x, m, n).1.finished
  {
    AllRoom(x.0.maxPackageIndex, n);
    LockstepFinishes(SetData(x.0, m), Unlock(x.1), n);
  }

  lemma FinishedDelivers(x: (SenderState, ReceiverState), m: Message, n: uint8)
    requires Settled(x) && n >= 1 && Steady(x.0, x.1) && x.1.finished && Sendable(x, m, n)
    ensures var y := NextMessage(x, m, n); Delivered(y.0, y.1, m)
  {
    CleanTransfer(x.0, Unlock(x.1), m, n);
  }

  /** Both ends after a series of messages. */
  function Messages(x: (SenderState, ReceiverState), ms: seq<Message>, n: uint8): (y: (SenderState, ReceiverState))
    requires Settled(x) && n >= 1
    ensures Settled(y) && y.0.maxPackageIndex == x.0.maxPackageIndex && |y.1.data| == |x.1.data|
    decreases |ms|
  {
    if ms == [] then x
    else
      var y := Messages(x, ms[..|ms| - 1], n);
      MessageSettles(y, ms[|ms| - 1], n);
      NextMessage(y, ms[|ms| - 1], n)
  }

  lemma {:induction false} MessagesAlign(x: (SenderState, ReceiverState), ms: seq<Message>, n: uint8)
    requires Settled(x) && n >= 1 && (forall i :: 0 <= i < |ms| ==> Sendable(x, ms[i], n))
    ensures var y := Messages(x, ms, n);
            && (|ms| >= 1 ==> Steady(y.0, y.1))
            && (|ms| >= 2 ==> y.1.finished)
            && (|ms| >= 3 ==> Delivered(y.0, y.1, ms[|ms| - 1]))
    decreases |ms|
  {
    if ms == [] {
    } else {
      var k := |ms| - 1;
      var y := Messages(x, ms[..k], n);
      MessagesAlign(x, ms[..k], n);
      MessageSettles(y, ms[k], n);
      assert Sendable(y, ms[k], n);
      if k >= 1 {
        SteadyFinishes(y, ms[k], n);
      }
      if k >= 2 {
        FinishedDelivers(y, ms[k], n);
      }
    }
  }

  /** From any contents of both structures, once lossless rounds have made the sender idle,
      at most two messages are lost or spoilt: the third and every later one that the
      buffer and the indices can carry is delivered whole. */
  lemma RecoversDelivery(s: SenderState, r: ReceiverState, ms: seq<Message>, n: uint8)
    requires AnyState(s, r) && s.maxPackageIndex >= 2 && n >= 1 && |ms| >= 3
    requires forall i :: 0 <= i < |ms| ==> |ms[i]| <= |r.data| && |ms[i]| <= s.maxPackageIndex * n
    ensures Settled(CleanRun(s, r, n))
    ensures var y := Messages(CleanRun(s, r, n), ms, n); Delivered(y.0, y.1, ms[|ms| - 1])
  {
    CleanRunKeepsSizes(s, r, n);
    MessagesAlign(CleanRun(s, r, n), ms, n);
  }

  // ----- a message in place of another --------------------------------------------

  /** A sender that was given a message while busy finishes a resync first. */
  predicate Replacing(s: SenderState, r: ReceiverState, n: uint8) {
    && AnyState(s, r) && s.maxPackageIndex >= 2 && n >= 1 && |s.data| <= |r.data|
    && s.phase.ResyncThenSend? && s.currentOffset == 0 && s.currentPackage == 1
  }

  lemma ReplacingRound(s: SenderState, r: ReceiverState, n: uint8)
    requires Replacing(s, r, n)
    ensures var (s', r') := Round(s, r, n);
            && s'.data == s.data && s'.maxPackageIndex == s.maxPackageIndex && |r'.data| == |r.data|
            && (if s'.phase.Sending? then InStep(s', r') && s'.currentPackage == 1 && s'.currentOffset == 0
                else Replacing(s', r', n))
  {
    RoundKeepsSizes(s, r, n);
    var (s', r') := Round(s, r, n);
    if s'.phase.Sending? {
      ResyncThenSendRestoresPhase(s, r, n);
    }
  }

  lemma {:induction false} ReplacementArrives(s: SenderState, r: ReceiverState, n: uint8)
    requires Replacing(s, r, n)
    ensures var (s', r') := CleanRun(s, r, n);
            && s'.phase.Idle?
            && (r'.finished <==> |s.data| <= s.maxPackageIndex * n)
            && (r'.finished ==> Holds(r'.data, s.data))
    decreases RoundsLeft(s, r)
  {
    ReplacingRound(s, r, n);
    CleanRunUnfold(s, r, n);
    RoundShrinks(s, r, n);
    var x := Round(s, r, n);
    if x.0.phase.Sending? {
      AllRoom(s.maxPackageIndex, n);
      CleanTransferFrom(x.0, x.1, n);
    } else {
      ReplacementArrives(x.0, x.1, n);
    }
  }

  /** A message given to a busy sender aborts the one under way and, after the resync,
      arrives on a clean link exactly as it would have from an idle one, whatever the two
      ends held. */
  lemma ReplacementIsDelivered(s: SenderState, r: ReceiverState, m: Message, n: uint8)
    requires AnyState(s, r) && s.maxPackageIndex >= 2 && n >= 1 && |m| <= |r.data| && !s.phase.Idle?
    ensures var (s', r') := CleanRun(SetData(s, m), r, n);
            && s'.phase.Idle?
            && (r'.finished <==> |m| <= s.maxPackageIndex * n)
            && (r'.finished ==> Holds(r'.data, m))
  {
    ReplacementArrives(SetData(s, m), r, n);
  }

  // ----- fresh starts -------------------------------------------------------------

  /** A reset forgets everything but the message pointer and the limit; the patience it sets
      is that of ratio 2 and burst 1, the transmitter's boosted telemetry. */
  lemma ResetForgets(s: SenderState, t: SenderState)
    requires s.data == t.data && s.maxPackageIndex == t.maxPackageIndex
    ensures SenderReset(s) == SenderReset(t)
    ensures SenderReset(s).maxWaitCount == UpdateRate(s, 2, 1).maxWaitCount
  {
  }

  /** A receiver reset keeps the buffer and whether it is finished, and forgets the rest. */
  lemma ReceiverResetForgets(r: ReceiverState, q: ReceiverState)
    requires r.data == q.data && r.finished == q.finished && r.maxPackageIndex == q.maxPackageIndex
    ensures ReceiverReset(r) == ReceiverReset(q)
  {
  }

  /** Two ends that are reset, the receiver being given a buffer, are in phase, whatever they
      held: the next message that buffer and indices can carry is delivered. */
  lemma ResetEndsDeliver(s: SenderState, r: ReceiverState, buffer: Message, m: Message, n: uint8)
    requires s.maxPackageIndex == r.maxPackageIndex >= 2 && n >= 1
    requires |m| <= |buffer| && |m| <= s.maxPackageIndex * n
    ensures var s0, r0 := SenderReset(s), SetBuffer(ReceiverReset(r), buffer);
            && AnyState(SetData(s0, m), r0)
            && Delivered(CleanRun(SetData(s0, m), r0, n).0, CleanRun(SetData(s0, m), r0, n).1, m)
  {
    CleanTransfer(SenderReset(s), SetBuffer(ReceiverReset(r), buffer), m, n);
  }
}
