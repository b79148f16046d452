/** The two link-quality counters: the receiver's (rx_main.c) and the transmitter's
    (tx_main.c). Both keep a ring of bits, one per packet slot, and a running count of the
    set ones. The specification is a window over the list of all results so far. */
module LinkQuality {
  // ----- Windows ------------------------------------------------------------------

  function Last(results: seq<bool>, n: nat): (w: seq<bool>) {
    if n >= |results| then results else results[|results| - n..]
  }

  function Trues(s: seq<bool>): (n: nat)
    ensures n <= |s|
  {
    if s == [] then 0 else Trues(s[..|s| - 1]) + (if s[|s| - 1] then 1 else 0)
  }

  lemma {:induction false} TruesFirst(s: seq<bool>)
    requires s != []
    ensures Trues(s) == (if s[0] then 1 else 0) + Trues(s[1..])
    decreases |s|
  {
    if |s| == 1 {
      assert s[..0] == [] && s[1..] == [];
    } else {
      var n := |s| - 1;
      TruesFirst(s[..n]);
      assert s[..n][1..] == s[1..][..n - 1];
    }
  }

  // ----- The ring -----------------------------------------------------------------

  /** `slots` of the ring, the current slot, and the running count. */
  datatype Ring = Ring(slots: seq<bool>, pos: nat, lq: int)

  function Next(pos: nat, w: nat): (k: nat)
    requires pos < w
    ensures k < w
  {
    if pos + 1 == w then 0 else pos + 1
  }

  function Back(pos: nat, j: nat, w: nat): (k: nat)
    requires pos < w && j <= w
    ensures j > 0 ==> k < w
  {
    if pos >= j then pos - j else pos + w - j
  }

  /** The current slot is clear, and the slots before it hold the last results; slots that
      were never used are clear; the count is the number of set slots. */
  ghost predicate RingInv(r: Ring, results: seq<bool>) {
    && r.pos < |r.slots| && (|results| < |r.slots| ==> r.pos == |results|)
    && !r.slots[r.pos]
    && Remembers(r, results)
    && UnusedAreClear(r, |results|)
    && r.lq == Trues(Last(results, |r.slots| - 1))
  }

  ghost predicate Remembers(r: Ring, results: seq<bool>)
    requires r.pos < |r.slots|
  {
    forall j :: 1 <= j < |r.slots| && j <= |results| ==> r.slots[Back(r.pos, j, |r.slots|)] == results[|results| - j]
  }

  ghost predicate UnusedAreClear(r: Ring, n: nat) {
    forall k :: n <= k < |r.slots| ==> !r.slots[k]
  }

  /** Marks the current slot as received (DownlinkLqAdd, and the first half of Record). */
  function Mark(r: Ring, received: bool): (r': Ring)
    requires r.pos < |r.slots|
    ensures |r'.slots| == |r.slots| && r'.pos == r.pos
  {
    if received && !r.slots[r.pos] then r.(slots := r.slots[r.pos := true], lq := r.lq + 1) else r
  }

  /** Moves to the next slot and clears it (DownlinkLqInc, UplinkLqTracker_Advance). */
  function Advance(r: Ring): (r': Ring)
    requires r.pos < |r.slots|
    ensures |r'.slots| == |r.slots| && r'.pos == Next(r.pos, |r.slots|)
  {
    var next := Next(r.pos, |r.slots|);
    if r.slots[next] then Ring(r.slots[next := false], next, r.lq - 1) else r.(pos := next)
  }

  /** A window is counted once, however many packets arrive in it. */
  lemma MarkedOnce(r: Ring)
    requires r.pos < |r.slots|
    ensures Mark(Mark(r, true), true) == Mark(r, true) && Mark(r, true).slots[r.pos] && Mark(r, false) == r
  {
  }

  /** Before the ring moves on, its count covers the whole window, the new result included. */
  lemma MarkCounts(r: Ring, results: seq<bool>, received: bool)
    requires RingInv(r, results)
    ensures Mark(r, received).lq == Trues(Last(results + [received], |r.slots|))
  {
    var w, all := |r.slots|, results + [received];
    var last := Last(all, w);
    assert last[..|last| - 1] == Last(results, w - 1);
  }

  /** What the window of `w` results loses when the next one comes. */
  function Oldest(results: seq<bool>, received: bool, w: nat): bool
    requires w > 0
  {
    if w == 1 then received else if |results| < w - 1 then false else results[|results| - (w - 1)]
  }

  /** The slot that the ring moves onto holds the oldest result of a full window. */
  lemma NextSlotIsOldest(r: Ring, results: seq<bool>, received: bool)
    requires RingInv(r, results)
    ensures Mark(r, received).slots[Next(r.pos, |r.slots|)] == Oldest(results, received, |r.slots|)
  {
    var w, n := |r.slots|, |results|;
    if w > 1 && n >= w - 1 {
      assert Back(r.pos, w - 1, w) == Next(r.pos, w);
    }
  }

  lemma DropOldest(results: seq<bool>, received: bool, w: nat)
    requires w > 0
    ensures var all := results + [received];
            Trues(Last(all, w - 1)) == Trues(Last(all, w)) - (if Oldest(results, received, w) then 1 else 0)
  {
    var all := results + [received];
    if |all| >= w {
      TruesFirst(Last(all, w));
      assert Last(all, w)[1..] == Last(all, w - 1);
      assert Last(all, w)[0] == Oldest(results, received, w);
    }
  }

  /** Moving on takes a set slot out of the count. */
  lemma AdvanceTakes(m: Ring, oldest: bool, after: int)
    requires m.pos < |m.slots| && m.slots[Next(m.pos, |m.slots|)] == oldest
    requires after == m.lq - (if oldest then 1 else 0) && after >= 0
    ensures oldest ==> m.lq > 0
    ensures Advance(m).lq == after
  {
  }

  lemma MarkMeets(r: Ring, results: seq<bool>, received: bool) returns (oldest: bool, after: int)
    requires RingInv(r, results)
    ensures oldest == Mark(r, received).slots[Next(r.pos, |r.slots|)]
    ensures after == Mark(r, received).lq - (if oldest then 1 else 0)
    ensures after == Trues(Last(results + [received], |r.slots| - 1))
  {
    MarkCounts(r, results, received);
    NextSlotIsOldest(r, results, received);
    DropOldest(results, received, |r.slots|);
    oldest := Oldest(results, received, |r.slots|);
    after := Trues(Last(results + [received], |r.slots| - 1));
  }

  lemma RecordCount(r: Ring, results: seq<bool>, received: bool)
    requires RingInv(r, results)
    ensures var m := Mark(r, received);
            && (m.slots[Next(r.pos, |r.slots|)] ==> m.lq > 0)
            && Advance(m).lq == Trues(Last(results + [received], |r.slots| - 1))
  {
    var oldest, after := MarkMeets(r, results, received);
    AdvanceTakes(Mark(r, received), oldest, after);
  }

  lemma RecordSlot(r: Ring, results: seq<bool>, received: bool, j: nat)
    requires RingInv(r, results) && 1 <= j < |r.slots| && j <= |results| + 1
    ensures var a := Advance(Mark(r, received));
            && |a.slots| == |r.slots| && a.pos < |r.slots|
            && a.slots[Back(a.pos, j, |r.slots|)] == (results + [received])[|results| + 1 - j]
  {
    var w := |r.slots|;
    var k := Back(Next(r.pos, w), j, w);
    assert k != Next(r.pos, w);
    if j > 1 {
      assert k == Back(r.pos, j - 1, w) && k != r.pos;
      assert r.slots[k] == results[|results| - (j - 1)];
    } else {
      assert k == r.pos;
    }
  }

  lemma RecordRemembers(r: Ring, results: seq<bool>, received: bool)
    requires RingInv(r, results)
    ensures Remembers(Advance(Mark(r, received)), results + [received])
  {
    var a := Advance(Mark(r, received));
    forall j | 1 <= j < |a.slots| && j <= |results| + 1
      ensures a.slots[Back(a.pos, j, |a.slots|)] == (results + [received])[|results| + 1 - j]
    {
      RecordSlot(r, results, received, j);
    }
  }

  lemma RecordUnused(r: Ring, results: seq<bool>, received: bool)
    requires RingInv(r, results)
    ensures var a := Advance(Mark(r, received));
            && |a.slots| == |r.slots| && a.pos < |a.slots| && !a.slots[a.pos]
            && (|results| + 1 < |a.slots| ==> a.pos == |results| + 1)
            && UnusedAreClear(a, |results| + 1)
  {
  }

  /** One result later the ring describes the longer list. */
  lemma RecordInv(r: Ring, results: seq<bool>, received: bool)
    requires RingInv(r, results)
    ensures RingInv(Advance(Mark(r, received)), results + [received])
  {
    RecordUnused(r, results, received);
    RecordRemembers(r, results, received);
    RecordCount(r, results, received);
  }

  // ----- The ring after a list of results ------------------------------------------

  function RingFor(w: nat, results: seq<bool>): (r: Ring)
    requires w > 0
    ensures |r.slots| == w && r.pos < w
  {
    if results == [] then Ring(seq(w, _ => false), 0, 0)
    else Advance(Mark(RingFor(w, results[..|results| - 1]), results[|results| - 1]))
  }

  lemma RingForGrows(w: nat, results: seq<bool>, received: bool)
    requires w > 0
    ensures RingFor(w, results + [received]) == Advance(Mark(RingFor(w, results), received))
  {
    assert (results + [received])[..|results|] == results;
  }

  ghost predicate Describes(w: nat, results: seq<bool>)
    requires w > 0
  {
    RingInv(RingFor(w, results), results)
  }

  lemma RingForStep(w: nat, results: seq<bool>, received: bool)
    requires w > 0 && Describes(w, results)
    ensures Describes(w, results + [received])
  {
    RingForGrows(w, results, received);
    RecordInv(RingFor(w, results), results, received);
  }

  lemma EmptyRing(w: nat)
    requires w > 0
    ensures Describes(w, [])
  {
    assert RingFor(w, []) == Ring(seq(w, _ => false), 0, 0);
    assert Last([], w - 1) == [];
  }

  lemma LastApart(results: seq<bool>)
    requires results != []
    ensures results == results[..|results| - 1] + [results[|results| - 1]]
  {
  }

  lemma {:induction false} RingForInv(w: nat, results: seq<bool>)
    requires w > 0
    ensures Describes(w, results)
    decreases |results|
  {
    if |results| == 0 {
      EmptyRing(w);
    } else {
      var n := |results| - 1;
      LastApart(results);
      RingForInv(w, results[..n]);
      RingForStep(w, results[..n], results[n]);
    }
  }

  /** After any results the count is that of the last `w - 1`: the slot just entered is
      already clear. */
  lemma CountAfter(w: nat, results: seq<bool>)
    requires w > 0
    ensures RingFor(w, results).lq == Trues(Last(results, w - 1))
  {
    RingForInv(w, results);
  }

  lemma CountIsBelow(w: nat, results: seq<bool>)
    requires w > 0
    ensures 0 <= RingFor(w, results).lq < w
  {
    CountAfter(w, results);
  }

  /** Read before the ring moves on, the count is that of the last `w`. */
  lemma CountBefore(w: nat, results: seq<bool>, received: bool)
    requires w > 0
    ensures Mark(RingFor(w, results), received).lq == Trues(Last(results + [received], w))
  {
    RingForInv(w, results);
    MarkCounts(RingFor(w, results), results, received);
  }

  /** Clearing a set slot never takes the count below zero. */
  lemma NoUnderflow(w: nat, results: seq<bool>, received: bool)
    requires w > 0
    ensures var m := Mark(RingFor(w, results), received);
            m.slots[Next(m.pos, w)] ==> m.lq > 0
  {
    RingForInv(w, results);
    RecordCount(RingFor(w, results), results, received);
  }

  lemma PercentBound(lq: nat, count: nat)
    requires 0 < count && lq <= count
    ensures lq * 100 / count <= 100
  {
    var q := lq * 100 / count;
    assert lq * 100 == count * q + lq * 100 % count;
    NotAbove(count, q - 100);
  }

  /** `lq * 100 / count` */
  function Percent(lq: nat, count: nat): (p: nat)
    requires 0 < count && lq <= count
    ensures p <= 100
  {
    PercentBound(lq, count);
    lq * 100 / count
  }

  lemma NotAbove(count: int, k: int)
    requires count > 0 && count * k <= 0
    ensures k <= 0
  {
  }
}
