/** The trackers as they run: bits packed into 32-bit words, a mask with one set bit (kept
    here as the position of that bit), and uint8 counters. */
module LinkQualityTrackers {
  import opened LinkQuality
  import opened Widths

  const WORD := 32
  const UPLINK_HISTORY := 100
  const DOWNLINK_WINDOW := 25

  /** A uint32, low bit first. */
  type Word = w: seq<bool> | |w| == 32 witness seq(32, _ => false)

  function Slots(words: seq<Word>, n: nat): (s: seq<bool>)
    requires n <= WORD * |words|
    ensures |s| == n && forall k :: 0 <= k < n ==> s[k] == words[k / WORD][k % WORD]
  {
    seq(n, k requires 0 <= k < n => words[k / WORD][k % WORD])
  }

  lemma SetBit(words: seq<Word>, n: nat, i: nat, b: nat, v: bool)
    requires n <= WORD * |words| && i < |words| && b < WORD && WORD * i + b < n
    ensures Slots(words, n)[WORD * i + b] == words[i][b]
    ensures Slots(words[i := words[i][b := v]], n) == Slots(words, n)[WORD * i + b := v]
  {
    var s, t := Slots(words, n), Slots(words[i := words[i][b := v]], n);
    forall k | 0 <= k < n ensures t[k] == s[WORD * i + b := v][k] {
      assert k == WORD * (k / WORD) + k % WORD;
    }
  }

  /** `UplinkLqTracker_t` */
  class UplinkLqTracker {
    var windowSize: uint8
    var lq: uint8
    var index: uint8
    var count: uint8
    var bit: uint8
    const history: array<Word>
    /** All results since the last reset. */
    ghost var results: seq<bool>

    ghost predicate Shape()
      reads this, history
    {
      && history.Length == 4 && 1 <= windowSize <= UPLINK_HISTORY
      && bit < WORD && WORD * index + bit < windowSize
    }

    ghost function RingOf(): Ring
      requires Shape()
      reads this, history
    {
      Ring(Slots(history[..], windowSize), WORD * index + bit, lq)
    }

    ghost predicate Valid()
      reads this, history
    {
      && Shape() && RingOf() == RingFor(windowSize, results)
      && count as int == Min(|results|, windowSize)
    }

    constructor (size: uint8)
      ensures Valid() && results == [] && fresh(history)
      ensures windowSize as int == if size == 0 || size > UPLINK_HISTORY then UPLINK_HISTORY else size as int
    {
      windowSize, lq, index, count, bit := UPLINK_HISTORY, 0, 0, 0, 0;
      history := new Word[4](_ => seq(WORD, _ => false));
      results := [];
      new;
      Reset(size);
    }

    /** An out-of-range size means the largest. */
    method Reset(size: uint8)
      requires history.Length == 4
      modifies this, history
      ensures Valid() && results == []
      ensures windowSize as int == if size == 0 || size > UPLINK_HISTORY then UPLINK_HISTORY else size as int
    {
      forall i | 0 <= i < 4 {
        history[i] := seq(WORD, _ => false);
      }
      windowSize := if size == 0 || size > UPLINK_HISTORY then UPLINK_HISTORY else size;
      lq, index, count, bit := 0, 0, 0, 0;
      results := [];
      assert Slots(history[..], windowSize) == seq(windowSize, _ => false);
    }

    /** The percentage shown: of the last `min(n, W)` slots, the one just cleared counts as
        lost once the window is full. */
    method GetLq() returns (percent: uint8)
      requires Valid()
      ensures results == [] ==> percent == 0
      ensures results != [] ==>
        percent as int == Percent(Trues(Last(results, windowSize - 1)), Min(|results|, windowSize))
      ensures percent == 100 <==> 0 < |results| < windowSize && forall i :: 0 <= i < |results| ==> results[i]
    {
      CountAfter(windowSize, results);
      if results != [] {
        FullMarks(results, windowSize);
      }
      if count == 0 {
        return 0;
      }
      return Percent(lq, count);
    }

    /** Moves the mask on, from word to word and back to the first at the window's end. */
    method StepMask()
      requires Shape()
      modifies this`bit, this`index
      ensures Shape() && WORD * index + bit == Next(old(WORD * index + bit), windowSize)
    {
      bit := bit + 1;
      if bit == WORD {
        bit := 0;
        index := index + 1;
      }
      var wrapIndex, wrapBit := windowSize / WORD, windowSize % WORD;
      if (wrapBit == 0 && index == wrapIndex) || (wrapBit != 0 && index == wrapIndex && bit == wrapBit) {
        index := 0;
        bit := 0;
      }
    }

    method SetCurrent(v: bool)
      requires Shape()
      modifies history
      ensures Shape()
      ensures Slots(history[..], windowSize) == old(Slots(history[..], windowSize)[WORD * index + bit := v])
    {
      SetBit(history[..], windowSize, index, bit, v);
      ghost var before := history[..];
      history[index] := history[index][bit := v];
      assert history[..] == before[index := before[index][bit := v]];
    }

    /** `UplinkLqTracker_Advance`: never counts below zero. */
    method Advance()
      requires Shape()
      requires var r := RingOf(); r.slots[Next(r.pos, |r.slots|)] ==> r.lq > 0
      modifies this`bit, this`index, this`lq, this`count, history
      ensures Shape() && RingOf() == LinkQuality.Advance(old(RingOf()))
      ensures count as int == if old(count) < windowSize then old(count) + 1 else old(count) as int
    {
      StepMask();
      SetBit(history[..], windowSize, index, bit, false);
      if history[index][bit] {
        SetCurrent(false);
        lq := lq - 1;
      }
      if count < windowSize {
        count := count + 1;
      }
    }

    /** The first half of `UplinkLqTracker_Record`. */
    method MarkReceived()
      requires Shape() && lq < windowSize
      modifies this`lq, history
      ensures Shape() && RingOf() == Mark(old(RingOf()), true)
    {
      SetBit(history[..], windowSize, index, bit, true);
      if !history[index][bit] {
        SetCurrent(true);
        lq := lq + 1;
      }
    }

    /** `UplinkLqTracker_Record` */
    method Record(received: bool)
      requires Valid()
      modifies this, history
      ensures Valid() && results == old(results) + [received] && windowSize == old(windowSize)
    {
      CountIsBelow(windowSize, results);
      NoUnderflow(windowSize, results, received);
      RingForGrows(windowSize, results, received);
      RecordBits(received);
      results := results + [received];
    }

    method RecordBits(received: bool)
      requires Shape() && lq < windowSize
      requires var m := Mark(RingOf(), received); m.slots[Next(m.pos, |m.slots|)] ==> m.lq > 0
      modifies this`bit, this`index, this`lq, this`count, history
      ensures Shape() && RingOf() == LinkQuality.Advance(old(Mark(RingOf(), received)))
      ensures count as int == if old(count) < windowSize then old(count) + 1 else old(count) as int
    {
      if received {
        MarkReceived();
      }
      Advance();
    }
  }

  lemma {:induction false} AllTrue(s: seq<bool>)
    ensures Trues(s) == |s| <==> forall i :: 0 <= i < |s| ==> s[i]
  {
    if s == [] {
      // Nothing to count.
    } else {
      var n := |s| - 1;
      AllTrue(s[..n]);
      assert (forall i :: 0 <= i < n ==> s[i]) <==> forall i :: 0 <= i < n ==> s[..n][i];
    }
  }

  lemma BelowFull(lq: nat, w: nat)
    requires lq < w
    ensures Percent(lq, w) < 100
  {
    var q := Percent(lq, w);
    assert lq * 100 == w * q + lq * 100 % w;
    AtMost(w, q, 100);
  }

  lemma AtMost(w: int, q: int, n: int)
    requires w > 0 && w * q < n * w
    ensures q < n
  {
  }

  /** The receiver shows 100 exactly while the window is not full yet and nothing was lost.
      Once it is full not even a perfect link does: there the figure is (W - 1) * 100 / W,
      which is 99 for the window of 100. */
  lemma FullMarks(results: seq<bool>, w: nat)
    requires 1 <= w <= UPLINK_HISTORY && results != []
    ensures Percent(Trues(Last(results, w - 1)), Min(|results|, w)) == 100
       <==> |results| < w && forall i :: 0 <= i < |results| ==> results[i]
    ensures |results| >= w && (forall i :: 0 <= i < |results| ==> results[i]) ==>
              Percent(Trues(Last(results, w - 1)), w) == (w - 1) * 100 / w
  {
    var shown := Last(results, w - 1);
    AllTrue(shown);
    if Trues(shown) < Min(|results|, w) {
      BelowFull(Trues(shown), Min(|results|, w));
    } else {
      assert shown == results;
      AtFull(|results|);
    }
  }

  lemma AtFull(w: nat)
    requires w > 0
    ensures Percent(w, w) == 100
  {
  }

  /** `DownlinkLqCalc_t`: one word, a window of 25, and a count that starts at 1. */
  class DownlinkLqCalc {
    var lq: uint8
    var count: uint8
    var bit: uint8
    const bits: array<Word>
    /** The windows that are over. */
    ghost var results: seq<bool>

    ghost predicate Shape()
      reads this, bits
    {
      bits.Length == 1 && bit < DOWNLINK_WINDOW
    }

    ghost function RingOf(): Ring
      requires Shape()
      reads this, bits
    {
      Ring(Slots(bits[..], DOWNLINK_WINDOW), bit, lq)
    }

    ghost predicate Valid()
      reads this, bits
    {
      && Shape() && RingOf() == RingFor(DOWNLINK_WINDOW, results)
      && count as int == Min(|results| + 1, DOWNLINK_WINDOW)
    }

    constructor ()
      ensures Valid() && results == [] && fresh(bits)
    {
      lq, count, bit := 0, 1, 0;
      bits := new Word[1](_ => seq(WORD, _ => false));
      results := [];
      new;
      assert Slots(bits[..], DOWNLINK_WINDOW) == seq(DOWNLINK_WINDOW, _ => false);
    }

    method Add()
      requires Shape() && lq <= DOWNLINK_WINDOW
      modifies this`lq, bits
      ensures Shape() && RingOf() == Mark(old(RingOf()), true)
    {
      SetBit(bits[..], DOWNLINK_WINDOW, 0, bit, true);
      if bits[0][bit] {
        return;
      }
      bits[0] := bits[0][bit := true];
      assert bits[..] == old(bits[..])[0 := old(bits[..])[0][bit := true]];
      lq := lq + 1;
    }

    method Inc()
      requires Shape()
      requires var r := RingOf(); r.slots[Next(r.pos, |r.slots|)] ==> r.lq > 0
      modifies this`bit, this`lq, this`count, bits
      ensures Shape() && RingOf() == LinkQuality.Advance(old(RingOf()))
      ensures count as int == if old(count) < DOWNLINK_WINDOW then old(count) + 1 else old(count) as int
    {
      ghost var r := RingOf();
      bit := bit + 1;
      if bit == DOWNLINK_WINDOW {
        bit := 0;
      }
      assert bit as int == Next(r.pos, DOWNLINK_WINDOW);
      SetBit(bits[..], DOWNLINK_WINDOW, 0, bit, false);
      if bits[0][bit] {
        bits[0] := bits[0][bit := false];
        assert bits[..] == old(bits[..])[0 := old(bits[..])[0][bit := false]];
        lq := lq - 1;
      }
      if count < DOWNLINK_WINDOW {
        count := count + 1;
      }
    }

    /** `DownlinkTlmWindowDone`: the percentage is taken before the ring moves on, so it is
        exactly the share of the last 25 windows, this one included. */
    method WindowDone(received: bool) returns (percent: uint8)
      requires Valid()
      modifies this, bits
      ensures Valid() && results == old(results) + [received]
      ensures percent as int == Percent(Trues(Last(results, DOWNLINK_WINDOW)), Min(|results|, DOWNLINK_WINDOW))
    {
      CountIsBelow(DOWNLINK_WINDOW, results);
      CountBefore(DOWNLINK_WINDOW, results, received);
      NoUnderflow(DOWNLINK_WINDOW, results, received);
      RingForGrows(DOWNLINK_WINDOW, results, received);
      if received {
        Add();
      }
      percent := Get();
      Inc();
      results := results + [received];
    }

    /** `DownlinkLqGet` */
    method Get() returns (percent: uint8)
      requires 0 < count && lq <= count
      ensures percent as int == Percent(lq, count)
    {
      percent := Percent(lq, count);
    }
  }
}
