/** The transmitter's queue of MSP messages: the message being sent sits in a slot, the
    others wait, length-prefixed, in a byte ring. */
module MspQueue {
  import opened Widths
  import opened ByteFifo
  import opened LengthPrefixed

  const MSP_BUFFER := 65

  type MspMessage = m: seq<uint8> | |m| <= MSP_BUFFER

  datatype Queue = Queue(current: MspMessage, waiting: seq<MspMessage>)

  function AsRecords(ms: seq<MspMessage>): (rs: seq<Record>)
    ensures |rs| == |ms|
    ensures forall i :: 0 <= i < |ms| ==> rs[i] == Record(false, ms[i])
  {
    seq(|ms|, i requires 0 <= i < |ms| => Record(false, ms[i]))
  }

  /** Ring bytes the messages occupy, each with its length byte. */
  function Bytes(ms: seq<MspMessage>): nat {
    if ms == [] then 0 else |ms[0]| + 1 + Bytes(ms[1..])
  }

  /** How many of the oldest waiting messages make way for `need` more bytes. */
  function Dropped(waiting: seq<MspMessage>, need: nat): (d: nat)
    requires need < FIFO_SIZE
    ensures d <= |waiting|
  {
    if Bytes(waiting) + need < FIFO_SIZE then 0 else 1 + Dropped(waiting[1..], need)
  }

  lemma {:induction false} BytesIsEncodedLength(ms: seq<MspMessage>)
    ensures |Encode(AsRecords(ms))| == Bytes(ms)
  {
    if ms == [] {
      // Neither has any bytes.
    } else {
      assert AsRecords(ms)[1..] == AsRecords(ms[1..]);
      BytesIsEncodedLength(ms[1..]);
    }
  }

  lemma {:induction false} DroppedIsEviction(waiting: seq<MspMessage>, need: nat)
    requires need < FIFO_SIZE
    ensures Evict(AsRecords(waiting), need) == AsRecords(waiting[Dropped(waiting, need)..])
  {
    BytesIsEncodedLength(waiting);
    if !Fits(AsRecords(waiting), need) {
      assert AsRecords(waiting)[1..] == AsRecords(waiting[1..]);
      DroppedIsEviction(waiting[1..], need);
      var d := Dropped(waiting[1..], need);
      assert waiting[1..][d..] == waiting[1 + d..];
    }
  }

  /** The drop is the smallest that makes room. */
  lemma {:induction false} DroppedIsLeast(waiting: seq<MspMessage>, need: nat, e: nat)
    requires need < FIFO_SIZE && e < Dropped(waiting, need)
    ensures Bytes(waiting[e..]) + need >= FIFO_SIZE
  {
    if e > 0 {
      DroppedIsLeast(waiting[1..], need, e - 1);
      assert waiting[1..][e - 1..] == waiting[e..];
    } else {
      assert waiting[0..] == waiting;
    }
  }

  function Add(q: Queue, m: seq<uint8>): Queue {
    if |m| > MSP_BUFFER then q
    else if q.current == [] then q.(current := m)
    else q.(waiting := q.waiting[Dropped(q.waiting, |m| + 1)..] + [m])
  }

  function Unlock(q: Queue): Queue {
    if q.waiting == [] then q.(current := []) else Queue(q.waiting[0], q.waiting[1..])
  }

  class MspHandset {
    const fifo: Fifo
    var mspData: MspMessage
    ghost var waiting: seq<MspMessage>

    ghost predicate Valid()
      reads this, fifo, fifo.buffer
    {
      Holds(fifo, AsRecords(waiting))
    }

    ghost function View(): Queue
      reads this
    {
      Queue(mspData, waiting)
    }

    constructor ()
      ensures Valid() && View() == Queue([], []) && fresh(fifo) && fresh(fifo.buffer)
    {
      fifo := new Fifo();
      mspData, waiting := [], [];
    }

    method ResetMspQueue()
      requires Valid()
      modifies this, fifo
      ensures Valid() && fifo.buffer == old(fifo.buffer) && View() == Queue([], [])
    {
      fifo.Flush();
      mspData, waiting := [], [];
    }

    method GetMspMessage() returns (data: MspMessage)
      requires Valid()
      ensures data == View().current
    {
      data := mspData;
    }

    method UnlockMspMessage()
      requires Valid()
      modifies this, fifo
      ensures Valid() && fifo.buffer == old(fifo.buffer) && View() == Unlock(old(View()))
    {
      if fifo.Size() > 0 {
        assert waiting != [];
        assert AsRecords(waiting)[1..] == AsRecords(waiting[1..]);
        var size;
        size, mspData := PopRecord(fifo, AsRecords(waiting));
        waiting := waiting[1..];
      } else {
        mspData := [];
        assert AsRecords(waiting) == [];
      }
    }

    method AddMspMessage(data: seq<uint8>)
      requires Valid()
      modifies this, fifo, fifo.buffer
      ensures Valid() && fifo.buffer == old(fifo.buffer) && View() == Add(old(View()), data)
    {
      if |data| > MSP_BUFFER {
        return;
      }
      if mspData == [] {
        mspData := data;
      } else {
        ghost var kept := MakeRoom(fifo, AsRecords(waiting), |data| + 1);
        PushRecord(fifo, kept, data);
        DroppedIsEviction(waiting, |data| + 1);
        waiting := waiting[Dropped(waiting, |data| + 1)..] + [data];
        assert AsRecords(waiting) == kept + [Record(false, data)];
      }
    }
  }

  // ----- what the queue promises -----

  /** Messages still to be sent, in order. */
  function Pending(q: Queue): seq<MspMessage> {
    if q.current == [] then q.waiting else [q.current] + q.waiting
  }

  /** No message waits behind an empty slot, and none is empty. */
  predicate Ordered(q: Queue) {
    (q.current == [] ==> q.waiting == []) && (forall m :: m in q.waiting ==> m != [])
  }

  /** Pending messages that an addition never drops: the one being sent. */
  function Safe(q: Queue): nat {
    if q.current == [] then 0 else 1
  }

  lemma AppendBehind(q: Queue, m: MspMessage, d: nat)
    requires Ordered(q) && q.current != [] && m != [] && d <= |q.waiting|
    ensures Ordered(q.(waiting := q.waiting[d..] + [m]))
    ensures Pending(q.(waiting := q.waiting[d..] + [m])) == Pending(q)[..1] + Pending(q)[1 + d..] + [m]
  {
    assert forall x :: x in q.waiting[d..] + [m] ==> x in q.waiting || x == m;
    assert Pending(q)[1 + d..] == q.waiting[d..];
  }

  /** Waiting messages that adding `m` drops. */
  function DroppedBy(q: Queue, m: MspMessage): (d: nat)
    ensures d <= |q.waiting|
  {
    if q.current == [] then 0 else Dropped(q.waiting, |m| + 1)
  }

  /** A non-empty message of at most 65 bytes goes to the end of the queue; the message
      being sent is never dropped, only the oldest waiting ones. */
  lemma AddAppends(q: Queue, m: MspMessage)
    requires Ordered(q) && m != []
    ensures Ordered(Add(q, m))
    ensures var d := DroppedBy(q, m);
            && Safe(q) + d <= |Pending(q)|
            && Pending(Add(q, m)) == Pending(q)[..Safe(q)] + Pending(q)[Safe(q) + d..] + [m]
  {
    if q.current != [] {
      AppendBehind(q, m, DroppedBy(q, m));
    }
  }

  /** They are dropped only as far as room demands: one fewer would not have sufficed. */
  lemma AddDropsLeast(q: Queue, m: MspMessage, e: nat)
    requires e < DroppedBy(q, m)
    ensures Bytes(q.waiting[e..]) + |m| + 1 >= FIFO_SIZE
  {
    DroppedIsLeast(q.waiting, |m| + 1, e);
  }

  /** Finishing the current message brings up the next one, byte for byte. */
  lemma UnlockTakesNext(q: Queue)
    requires Ordered(q)
    ensures Ordered(Unlock(q))
    ensures Pending(Unlock(q)) == if Pending(q) == [] then [] else Pending(q)[1..]
  {
    if q.waiting != [] {
      assert q.waiting[0] in q.waiting && forall m :: m in q.waiting[1..] ==> m in q.waiting;
      assert Pending(Unlock(q)) == [q.waiting[0]] + q.waiting[1..] == q.waiting;
    }
  }

  /** With empty messages the promise fails: one brought up from the ring leaves the slot
      looking free although others wait. It is kept exactly in the other cases. */
  lemma EmptyMessageLosesOrder(q: Queue)
    requires q.current != []
    ensures (Unlock(q).current == [] ==> Unlock(q).waiting == [])
       <==> (|q.waiting| <= 1 || q.waiting[0] != [])
  {
    if |q.waiting| == 1 {
      assert q.waiting[1..] == [];
    } else if |q.waiting| > 1 {
      assert q.waiting[1..][0] == q.waiting[1];
    }
  }

  // ----- whole runs -----

  datatype Call = AddCall(message: MspMessage) | UnlockCall

  /** The queue with the messages added so far and those already sent. */
  datatype History = History(q: Queue, added: seq<MspMessage>, sent: seq<MspMessage>)

  function Apply(h: History, c: Call): History {
    match c
    case AddCall(m) => History(Add(h.q, m), h.added + [m], h.sent)
    case UnlockCall =>
      History(Unlock(h.q), h.added, if h.q.current == [] then h.sent else h.sent + [h.q.current])
  }

  function Run(h: History, calls: seq<Call>): History
    decreases |calls|
  {
    if calls == [] then h else Run(Apply(h, calls[0]), calls[1..])
  }

  /** `picks` names, in increasing order, the additions that `xs` consists of. */
  predicate Selects(picks: seq<nat>, xs: seq<MspMessage>, added: seq<MspMessage>) {
    && |picks| == |xs|
    && (forall i, j :: 0 <= i < j < |picks| ==> picks[i] < picks[j])
    && (forall i :: 0 <= i < |picks| ==> picks[i] < |added| && added[picks[i]] == xs[i])
  }

  predicate InOrder(h: History, picks: seq<nat>) {
    Ordered(h.q) && Selects(picks, h.sent + Pending(h.q), h.added)
  }

  /** Dropping `d` picks from `n` on and picking the newest addition. */
  lemma SelectsAfterDrop(picks: seq<nat>, xs: seq<MspMessage>, added: seq<MspMessage>, n: nat, d: nat, m: MspMessage)
    requires Selects(picks, xs, added) && n + d <= |picks|
    ensures Selects(picks[..n] + picks[n + d..] + [|added|], xs[..n] + xs[n + d..] + [m], added + [m])
  {
    var ps := picks[..n] + picks[n + d..];
    assert forall i :: 0 <= i < |ps| ==> ps[i] == picks[if i < n then i else i + d];
  }

  lemma ConcatDrop(a: seq<MspMessage>, p: seq<MspMessage>, k: nat, d: nat)
    requires k + d <= |p|
    ensures (a + p)[..|a| + k] + (a + p)[|a| + k + d..] == a + (p[..k] + p[k + d..])
  {
  }

  lemma AddKeepsOrder(h: History, m: MspMessage, picks: seq<nat>) returns (picks': seq<nat>)
    requires InOrder(h, picks) && m != []
    ensures InOrder(Apply(h, AddCall(m)), picks')
  {
    AddAppends(h.q, m);
    var d := DroppedBy(h.q, m);
    var p, n := Pending(h.q), |h.sent| + Safe(h.q);
    SelectsAfterDrop(picks, h.sent + p, h.added, n, d, m);
    picks' := picks[..n] + picks[n + d..] + [|h.added|];
    ConcatDrop(h.sent, p, Safe(h.q), d);
    Reassociate(h.sent, p[..Safe(h.q)] + p[Safe(h.q) + d..], [m]);
  }

  lemma Reassociate(a: seq<MspMessage>, b: seq<MspMessage>, c: seq<MspMessage>)
    ensures a + (b + c) == (a + b) + c
  {
  }

  lemma ShiftOne(a: seq<MspMessage>, p: seq<MspMessage>)
    requires p != []
    ensures (a + [p[0]]) + p[1..] == a + p
  {
  }

  lemma UnlockKeepsOrder(h: History, picks: seq<nat>)
    requires InOrder(h, picks)
    ensures InOrder(Apply(h, UnlockCall), picks)
  {
    UnlockTakesNext(h.q);
    if h.q.current != [] {
      assert Pending(h.q)[0] == h.q.current;
      ShiftOne(h.sent, Pending(h.q));
    }
  }

  /** In every run of non-empty messages, what has been sent followed by what is pending is
      a selection of the added messages in the order they were added, each taken once and
      unaltered; and nothing waits behind an empty slot. */
  lemma {:induction false} RunsAreInOrder(h: History, calls: seq<Call>, picks: seq<nat>) returns (picks': seq<nat>)
    requires InOrder(h, picks) && (forall c :: c in calls && c.AddCall? ==> c.message != [])
    ensures InOrder(Run(h, calls), picks')
    decreases |calls|
  {
    picks' := picks;
    if calls == [] {
    } else {
      assert calls[0] in calls;
      if calls[0].AddCall? {
        picks' := AddKeepsOrder(h, calls[0].message, picks);
      } else {
        UnlockKeepsOrder(h, picks);
      }
      picks' := RunsAreInOrder(Apply(h, calls[0]), calls[1..], picks');
    }
  }

  // ----- `ensure`, for every request -----

  /** One turn of its loop: the oldest record goes; popping an empty ring changes nothing. */
  function EnsureTurn(rs: seq<Record>): seq<Record> {
    if rs == [] then [] else rs[1..]
  }

  function EnsureTurns(rs: seq<Record>, n: nat): seq<Record> {
    if n == 0 then rs else EnsureTurns(EnsureTurn(rs), n - 1)
  }

  lemma {:induction false} TurnsEmpty(rs: seq<Record>)
    ensures EnsureTurns(rs, |rs|) == []
  {
    if rs == [] {
      // No turn is needed.
    } else {
      TurnsEmpty(rs[1..]);
    }
  }

  /** Its loop ends exactly for requests below the ring's size: for one of the full size
      the strict test fails after any number of turns. */
  lemma EnsureEndsBelowFullSize(rs: seq<Record>, need: nat)
    requires need <= FIFO_SIZE
    ensures (exists n: nat :: Fits(EnsureTurns(rs, n), need)) <==> need < FIFO_SIZE
  {
    TurnsEmpty(rs);
    if need < FIFO_SIZE {
      assert Fits(EnsureTurns(rs, |rs|), need);
    }
  }
}
