/** The stream filter of the firmware (UnifiedConfig_FilterBytes): it holds back what may be
    the start of a management frame, captures a whole valid frame when the session allows
    it, and passes every other byte on untouched. */
module ConfigFilter {
  import opened ConfigFrames
  import opened Widths

  datatype Phase = Discovery | SwitchPending | Session

  datatype Pending = NoFrame | Captured(frame: seq<uint8>)

  /** `s_filterBuffer[..s_filterLength]`, `s_filterExpected` and the one-frame mailbox. */
  datatype Filter = Filter(held: seq<uint8>, expected: uint8, pending: Pending)

  /** What leaves the filter, in stream order. */
  datatype Item = Byte(b: uint8) | Frame(bytes: seq<uint8>)

  predicate Allowed(phase: Phase, command: uint8) {
    phase.Session? || (phase.Discovery? && command == CMD_HELLO)
  }

  function AsBytes(s: seq<uint8>): (items: seq<Item>)
    ensures |items| == |s|
  {
    seq(|s|, i requires 0 <= i < |s| => Byte(s[i]))
  }

  function Content(i: Item): seq<uint8> { if i.Byte? then [i.b] else i.bytes }

  function Flatten(items: seq<Item>): (s: seq<uint8>) {
    if items == [] then []
    else
      var last := items[|items| - 1];
      Flatten(items[..|items| - 1]) + Content(last)
  }

  predicate LooksLikeFrame(s: seq<uint8>) {
    forall i :: 0 <= i < |s| && i < 8 ==> s[i] == MAGIC[i]
  }

  predicate Inv(crc: Checksum, f: Filter) {
    && |f.held| < MAX_FRAME
    && LooksLikeFrame(f.held)
    && (|f.held| < 12 ==> f.expected == 0)
    && (|f.held| >= 12 ==> f.held[11] <= MAX_PAYLOAD && f.expected == 20 + f.held[11] && |f.held| < f.expected as int)
    && (f.pending.Captured? ==> FrameIsValid(crc, f.pending.frame))
  }

  predicate Completes(crc: Checksum, f: Filter, b: uint8)
    requires Inv(crc, f)
  {
    f.expected != 0 && |f.held| + 1 == f.expected as int
  }

  /** One turn of the loop. */
  function FilterByte(crc: Checksum, f: Filter, phase: Phase, b: uint8): (r: (Filter, seq<Item>))
    requires Inv(crc, f)
  {
    var n := |f.held|;
    if n < 8 && b != MAGIC[n] then
      if b == MAGIC[0] then (f.(held := [b], expected := 0), AsBytes(f.held))
      else (f.(held := [], expected := 0), AsBytes(f.held + [b]))
    else
      var held := f.held + [b];
      if n + 1 == 12 then
        if b > MAX_PAYLOAD then (f.(held := [], expected := 0), AsBytes(held))
        else (f.(held := held, expected := 20 + b), [])
      else if Completes(crc, f, b) then
        if Allowed(phase, held[9]) && f.pending.NoFrame? && FrameIsValid(crc, held) then
          (Filter([], 0, Captured(held)), [Item.Frame(held)])
        else
          (f.(held := [], expected := 0), AsBytes(held))
      else
        (f.(held := held), [])
  }

  lemma FilterByteInv(crc: Checksum, f: Filter, phase: Phase, b: uint8)
    requires Inv(crc, f)
    ensures Inv(crc, FilterByte(crc, f, phase, b).0)
  {
  }

  // ----- Transparency -------------------------------------------------------------

  lemma FlattenGrows(items: seq<Item>, i: Item)
    ensures Flatten(items + [i]) == Flatten(items) + Content(i)
  {
    assert (items + [i])[..|items|] == items;
  }

  lemma {:induction false} FlattenConcat(a: seq<Item>, b: seq<Item>)
    ensures Flatten(a + b) == Flatten(a) + Flatten(b)
    decreases |b|
  {
    if b == [] {
      assert a + b == a;
    } else {
      var n := |b| - 1;
      FlattenConcat(a, b[..n]);
      FlattenGrows(a + b[..n], b[n]);
      FlattenGrows(b[..n], b[n]);
      SplitLast(a, b);
      Associative(Flatten(a), Flatten(b[..n]), Content(b[n]));
    }
  }

  lemma SplitLast<T>(a: seq<T>, b: seq<T>)
    requires b != []
    ensures a + b == (a + b[..|b| - 1]) + [b[|b| - 1]] && b == b[..|b| - 1] + [b[|b| - 1]]
  {
  }

  lemma Associative<T>(a: seq<T>, b: seq<T>, c: seq<T>)
    ensures (a + b) + c == a + (b + c)
  {
  }

  lemma {:induction false} FlattenBytes(s: seq<uint8>)
    ensures Flatten(AsBytes(s)) == s
  {
    if s == [] {
    } else {
      var n := |s| - 1;
      assert AsBytes(s)[..n] == AsBytes(s[..n]);
      FlattenBytes(s[..n]);
    }
  }

  lemma FlattenOne(i: Item)
    ensures Flatten([i]) == Content(i)
  {
    FlattenGrows([], i);
    assert [] + [i] == [i];
  }

  lemma StrayByteTransparent(crc: Checksum, f: Filter, phase: Phase, b: uint8)
    requires Inv(crc, f) && |f.held| < 8 && b != MAGIC[|f.held|]
    ensures var (f', items) := FilterByte(crc, f, phase, b); Flatten(items) + f'.held == f.held + [b]
  {
    FlattenBytes(f.held);
    FlattenBytes(f.held + [b]);
    assert (f.held + [b]) + [] == f.held + [b];
  }

  lemma FrameByteTransparent(crc: Checksum, f: Filter, phase: Phase, b: uint8)
    requires Inv(crc, f) && (|f.held| < 8 ==> b == MAGIC[|f.held|])
    ensures var (f', items) := FilterByte(crc, f, phase, b); Flatten(items) + f'.held == f.held + [b]
  {
    FlattenBytes(f.held + [b]);
    FlattenOne(Item.Frame(f.held + [b]));
    assert (f.held + [b]) + [] == f.held + [b] == [] + (f.held + [b]);
  }

  lemma FilterByteTransparent(crc: Checksum, f: Filter, phase: Phase, b: uint8)
    requires Inv(crc, f)
    ensures var (f', items) := FilterByte(crc, f, phase, b); Flatten(items) + f'.held == f.held + [b]
  {
    if |f.held| < 8 && b != MAGIC[|f.held|] {
      StrayByteTransparent(crc, f, phase, b);
    } else {
      FrameByteTransparent(crc, f, phase, b);
    }
  }

  predicate ItemIsSound(crc: Checksum, i: Item) {
    i.Frame? ==> FrameIsValid(crc, i.bytes)
  }

  /** One call of FilterBytes; the phase changes only between calls. */
  function FilterAll(crc: Checksum, f: Filter, phase: Phase, data: seq<uint8>): (r: (Filter, seq<Item>))
    requires Inv(crc, f)
    ensures Inv(crc, r.0)
    decreases |data|
  {
    if data == [] then (f, [])
    else
      var (f1, items) := FilterAll(crc, f, phase, data[..|data| - 1]);
      var (f2, more) := FilterByte(crc, f1, phase, data[|data| - 1]);
      FilterByteInv(crc, f1, phase, data[|data| - 1]);
      (f2, items + more)
  }

  lemma {:induction false} FilterAllTransparent(crc: Checksum, f: Filter, phase: Phase, data: seq<uint8>)
    requires Inv(crc, f)
    ensures var (f', items) := FilterAll(crc, f, phase, data); Flatten(items) + f'.held == f.held + data
    decreases |data|
  {
    if data == [] {
      assert Flatten([]) + f.held == f.held + data;
    } else {
      var n := |data| - 1;
      FilterAllTransparent(crc, f, phase, data[..n]);
      OneMoreTransparent(crc, f, phase, data[..n], data[n]);
      SplitLast([], data);
    }
  }

  lemma OneMoreTransparent(crc: Checksum, f: Filter, phase: Phase, data: seq<uint8>, b: uint8)
    requires Inv(crc, f)
    requires var (f1, items) := FilterAll(crc, f, phase, data); Flatten(items) + f1.held == f.held + data
    ensures var (f2, items) := FilterAll(crc, f, phase, data + [b]); Flatten(items) + f2.held == f.held + (data + [b])
  {
    var (f1, items) := FilterAll(crc, f, phase, data);
    var (f2, more) := FilterByte(crc, f1, phase, b);
    FilterAllGrows(crc, f, phase, data, b);
    FilterByteTransparent(crc, f1, phase, b);
    FlattenConcat(items, more);
    Glue(Flatten(items), Flatten(more), f2.held, f1.held, f.held, data, b);
  }

  lemma Glue<T>(out: seq<T>, more: seq<T>, held2: seq<T>, held1: seq<T>, held: seq<T>, data: seq<T>, b: T)
    requires out + held1 == held + data && more + held2 == held1 + [b]
    ensures (out + more) + held2 == held + (data + [b])
  {
    assert (out + more) + held2 == out + (more + held2) == (out + held1) + [b];
  }

  lemma FilterAllGrows(crc: Checksum, f: Filter, phase: Phase, a: seq<uint8>, b: uint8)
    requires Inv(crc, f)
    ensures var (f1, items) := FilterAll(crc, f, phase, a);
            var (f2, more) := FilterByte(crc, f1, phase, b);
            FilterAll(crc, f, phase, a + [b]) == (f2, items + more)
  {
    assert (a + [b])[..|a|] == a;
  }

  lemma ChunkGrows(crc: Checksum, f: Filter, phase: Phase, a: seq<uint8>, b: seq<uint8>, x: uint8)
    requires Inv(crc, f)
    requires var (f1, items1) := FilterAll(crc, f, phase, a);
             var (f2, items2) := FilterAll(crc, f1, phase, b);
             FilterAll(crc, f, phase, a + b) == (f2, items1 + items2)
    ensures var (f1, items1) := FilterAll(crc, f, phase, a);
            var (f2, items2) := FilterAll(crc, f1, phase, b + [x]);
            FilterAll(crc, f, phase, (a + b) + [x]) == (f2, items1 + items2)
  {
    var (f1, items1) := FilterAll(crc, f, phase, a);
    var (f2, items2) := FilterAll(crc, f1, phase, b);
    FilterAllGrows(crc, f, phase, a + b, x);
    FilterAllGrows(crc, f1, phase, b, x);
    Associative(items1, items2, FilterByte(crc, f2, phase, x).1);
  }

  /** The result does not depend on how the stream is cut into calls. */
  lemma {:induction false} ChunkingDoesNotMatter(crc: Checksum, f: Filter, phase: Phase, a: seq<uint8>, b: seq<uint8>)
    requires Inv(crc, f)
    ensures var (f1, items1) := FilterAll(crc, f, phase, a);
            var (f2, items2) := FilterAll(crc, f1, phase, b);
            FilterAll(crc, f, phase, a + b) == (f2, items1 + items2)
    decreases |b|
  {
    if b == [] {
      var items1 := FilterAll(crc, f, phase, a).1;
      assert a + b == a;
      assert items1 + [] == items1;
    } else {
      var n := |b| - 1;
      ChunkingDoesNotMatter(crc, f, phase, a, b[..n]);
      ChunkGrows(crc, f, phase, a, b[..n], b[n]);
      SplitLast(a, b);
    }
  }

  // ----- Runs ---------------------------------------------------------------------

  /** What happens to the filter: calls of FilterBytes in some phase, and the main loop
      taking the captured frame out of the mailbox. */
  datatype Event = Receive(phase: Phase, data: seq<uint8>) | MailboxEmptied

  /** `phases` names, item by item, the phase of the call that let it out. */
  datatype Trace = Trace(filter: Filter, input: seq<uint8>, items: seq<Item>, phases: seq<Phase>)

  function StepTrace(crc: Checksum, t: Trace, e: Event): (t': Trace)
    requires Inv(crc, t.filter)
    ensures Inv(crc, t'.filter)
  {
    match e
    case Receive(phase, data) =>
      var (f, items) := FilterAll(crc, t.filter, phase, data);
      Trace(f, t.input + data, t.items + items, t.phases + seq(|items|, _ => phase))
    case MailboxEmptied => t.(filter := t.filter.(pending := NoFrame))
  }

  function RunTrace(crc: Checksum, t: Trace, es: seq<Event>): (t': Trace)
    requires Inv(crc, t.filter)
    ensures Inv(crc, t'.filter)
    decreases |es|
  {
    if es == [] then t else StepTrace(crc, RunTrace(crc, t, es[..|es| - 1]), es[|es| - 1])
  }

  ghost predicate Accounted(crc: Checksum, t: Trace) {
    && Flatten(t.items) + t.filter.held == t.input
    && |t.phases| == |t.items|
    && forall i :: 0 <= i < |t.items| ==> ItemIsSound(crc, t.items[i]) && ItemIsAllowed(t.items[i], t.phases[i])
  }

  predicate ItemIsAllowed(i: Item, phase: Phase) {
    i.Frame? ==> |i.bytes| >= 20 && Allowed(phase, i.bytes[9])
  }

  ghost predicate AllSound(crc: Checksum, items: seq<Item>, phase: Phase) {
    forall i :: 0 <= i < |items| ==> ItemIsSound(crc, items[i]) && ItemIsAllowed(items[i], phase)
  }

  lemma FilterByteSound(crc: Checksum, f: Filter, phase: Phase, b: uint8)
    requires Inv(crc, f)
    ensures AllSound(crc, FilterByte(crc, f, phase, b).1, phase)
  {
  }

  lemma {:induction false} FilterAllSound(crc: Checksum, f: Filter, phase: Phase, data: seq<uint8>)
    requires Inv(crc, f)
    ensures AllSound(crc, FilterAll(crc, f, phase, data).1, phase)
    decreases |data|
  {
    if data == [] {
    } else {
      var n := |data| - 1;
      FilterAllSound(crc, f, phase, data[..n]);
      FilterByteSound(crc, FilterAll(crc, f, phase, data[..n]).0, phase, data[n]);
    }
  }

  lemma StepAccounted(crc: Checksum, t: Trace, e: Event)
    requires Inv(crc, t.filter) && Accounted(crc, t)
    ensures Accounted(crc, StepTrace(crc, t, e))
  {
    if e.Receive? {
      var (f, items) := FilterAll(crc, t.filter, e.phase, e.data);
      FilterAllTransparent(crc, t.filter, e.phase, e.data);
      FilterAllSound(crc, t.filter, e.phase, e.data);
      FlattenConcat(t.items, items);
      Join(Flatten(t.items), Flatten(items), f.held, t.filter.held, t.input, e.data);
    }
  }

  lemma Join<T>(out: seq<T>, more: seq<T>, held2: seq<T>, held1: seq<T>, input: seq<T>, data: seq<T>)
    requires out + held1 == input && more + held2 == held1 + data
    ensures (out + more) + held2 == input + data
  {
    assert (out + more) + held2 == out + (more + held2) == (out + held1) + data;
  }

  /** Nothing is lost, changed, reordered or invented, in any run: the forwarded bytes and
      the captured frames, in order, followed by the held bytes, are the input; fewer than
      40 bytes are ever held; and only valid frames are captured, each one allowed in the
      phase of the call that captured it. */
  lemma {:induction false} FilterIsTransparent(crc: Checksum, f: Filter, es: seq<Event>)
    requires Inv(crc, f) && f.held == []
    ensures var t := RunTrace(crc, Trace(f, [], [], []), es);
            Accounted(crc, t) && |t.filter.held| < MAX_FRAME
    decreases |es|
  {
    if es == [] {
      assert Flatten([]) == [];
    } else {
      var n := |es| - 1;
      FilterIsTransparent(crc, f, es[..n]);
      StepAccounted(crc, RunTrace(crc, Trace(f, [], [], []), es[..n]), es[n]);
    }
  }

  // ----- Capture ------------------------------------------------------------------

  predicate OnlyBytes(items: seq<Item>) {
    forall i :: 0 <= i < |items| ==> items[i].Byte?
  }

  lemma HeldIsShort(crc: Checksum, f: Filter, phase: Phase, noise: seq<uint8>)
    requires Inv(crc, f) && f.held == [] && !Occurs(noise)
    ensures |FilterAll(crc, f, phase, noise).0.held| < 8
  {
    var (f', items) := FilterAll(crc, f, phase, noise);
    FilterAllTransparent(crc, f, phase, noise);
    if |f'.held| >= 8 {
      SuffixOccurs(Flatten(items), f'.held, noise);
    }
  }

  lemma ShortHeldOnlyPasses(crc: Checksum, f: Filter, phase: Phase, b: uint8)
    requires Inv(crc, f) && |f.held| < 8
    ensures var (f', items) := FilterByte(crc, f, phase, b);
            f'.pending == f.pending && OnlyBytes(items)
  {
  }

  /** In noise without the magic the filter holds less than a whole magic. */
  lemma {:induction false} NoiseIsPassedOn(crc: Checksum, f: Filter, phase: Phase, noise: seq<uint8>)
    requires Inv(crc, f) && f.held == [] && f.pending.NoFrame? && !Occurs(noise)
    ensures var (f', items) := FilterAll(crc, f, phase, noise);
            f'.pending.NoFrame? && |f'.held| < 8 && OnlyBytes(items)
    decreases |noise|
  {
    HeldIsShort(crc, f, phase, noise);
    if noise == [] {
    } else {
      var n := |noise| - 1;
      PrefixHasNoMagic(noise, n);
      NoiseIsPassedOn(crc, f, phase, noise[..n]);
      ShortHeldOnlyPasses(crc, FilterAll(crc, f, phase, noise[..n]).0, phase, noise[n]);
    }
  }

  lemma PrefixHasNoMagic(noise: seq<uint8>, n: nat)
    requires n <= |noise| && !Occurs(noise)
    ensures !Occurs(noise[..n])
  {
    if Occurs(noise[..n]) {
      var i :| 0 <= i < n && OccursAt(noise[..n], i);
      assert noise[i..i + 8] == noise[..n][i..i + 8];
      assert OccursAt(noise, i);
    }
  }

  lemma SuffixOccurs(out: seq<uint8>, held: seq<uint8>, input: seq<uint8>)
    requires out + held == [] + input && |held| >= 8 && LooksLikeFrame(held)
    ensures Occurs(input)
  {
    assert held[..8] == MAGIC;
    assert [] + input == input;
    assert input[|out|..|out| + 8] == held[..8];
    assert OccursAt(input, |out|);
  }

  lemma FirstByteRestarts(crc: Checksum, f: Filter, phase: Phase, frame: seq<uint8>)
    requires Inv(crc, f) && f.pending.NoFrame? && |f.held| < 8 && FrameIsValid(crc, frame)
    ensures FilterByte(crc, f, phase, frame[0]) == (Filter([frame[0]], 0, NoFrame), AsBytes(f.held))
    ensures frame[..1] == [frame[0]]
  {
    if f.held == [] {
      assert f.held + [frame[0]] == [frame[0]];
      assert AsBytes(f.held) == [];
    } else {
      MagicHasNoBorder(|f.held|);
    }
  }

  lemma NextByteIsHeld(crc: Checksum, f: Filter, phase: Phase, frame: seq<uint8>, k: nat)
    requires Inv(crc, f) && f.pending.NoFrame? && FrameIsValid(crc, frame)
    requires 1 <= k && k + 1 < |frame| && f.held == frame[..k]
    ensures var (f', items) := FilterByte(crc, f, phase, frame[k]);
            f'.held == frame[..k + 1] && f'.pending.NoFrame? && items == []
  {
    assert frame[..k + 1] == frame[..k] + [frame[k]];
  }

  /** Once the filter starts on a frame it holds every byte until the last. */
  lemma {:induction false} FrameIsHeld(crc: Checksum, f: Filter, phase: Phase, frame: seq<uint8>, k: nat)
    requires Inv(crc, f) && f.pending.NoFrame? && |f.held| < 8
    requires FrameIsValid(crc, frame) && 1 <= k < |frame|
    ensures var (f', items) := FilterAll(crc, f, phase, frame[..k]);
            && f'.held == frame[..k] && f'.pending.NoFrame?
            && items == AsBytes(f.held)
    decreases k
  {
    assert frame[..k][..k - 1] == frame[..k - 1];
    if k == 1 {
      assert frame[..0] == [];
      assert FilterAll(crc, f, phase, []) == (f, []);
      FirstByteRestarts(crc, f, phase, frame);
      assert [] + AsBytes(f.held) == AsBytes(f.held);
    } else {
      FrameIsHeld(crc, f, phase, frame, k - 1);
      var (f1, items) := FilterAll(crc, f, phase, frame[..k - 1]);
      NextByteIsHeld(crc, f1, phase, frame, k - 1);
      assert items + [] == items;
    }
  }

  lemma LastByteCaptures(crc: Checksum, f: Filter, phase: Phase, frame: seq<uint8>)
    requires Inv(crc, f) && f.pending.NoFrame? && FrameIsValid(crc, frame) && f.held == frame[..|frame| - 1]
    requires Allowed(phase, frame[9])
    ensures FilterByte(crc, f, phase, frame[|frame| - 1]) == (Filter([], 0, Captured(frame)), [Item.Frame(frame)])
  {
    assert frame == f.held + [frame[|frame| - 1]];
  }

  lemma WholeFrameIsCaptured(crc: Checksum, f: Filter, phase: Phase, frame: seq<uint8>)
    requires Inv(crc, f) && f.pending.NoFrame? && |f.held| < 8
    requires FrameIsValid(crc, frame) && Allowed(phase, frame[9])
    ensures FilterAll(crc, f, phase, frame)
         == (Filter([], 0, Captured(frame)), AsBytes(f.held) + [Item.Frame(frame)])
  {
    var n := |frame| - 1;
    FrameIsHeld(crc, f, phase, frame, n);
    LastByteCaptures(crc, FilterAll(crc, f, phase, frame[..n]).0, phase, frame);
    FilterAllGrows(crc, f, phase, frame[..n], frame[n]);
    assert frame == frame[..n] + [frame[n]];
  }

  lemma NoiseThenFrame(crc: Checksum, f: Filter, phase: Phase, noise: seq<uint8>, frame: seq<uint8>)
    requires Inv(crc, f) && f.held == [] && f.pending.NoFrame? && !Occurs(noise)
    requires FrameIsValid(crc, frame) && Allowed(phase, frame[9])
    ensures FilterAll(crc, f, phase, noise + frame)
         == (Filter([], 0, Captured(frame)), AsBytes(noise) + [Item.Frame(frame)])
  {
    NoiseIsPassedOn(crc, f, phase, noise);
    var (f0, items0) := FilterAll(crc, f, phase, noise);
    WholeFrameIsCaptured(crc, f0, phase, frame);
    ChunkingDoesNotMatter(crc, f, phase, noise, frame);
    FilterAllTransparent(crc, f, phase, noise);
    AllBytes(items0, f0.held, noise);
    assert items0 + (AsBytes(f0.held) + [Item.Frame(frame)]) == (items0 + AsBytes(f0.held)) + [Item.Frame(frame)];
  }

  /** A frame that the other side built is captured whole, whatever came before it, as
      long as that did not contain the magic and the phase lets the command in; and the
      noise is passed on. The magic having no border is what makes this true. */
  lemma BuiltFrameIsCaptured(crc: Checksum, f: Filter, phase: Phase, noise: seq<uint8>, frame: Frame)
    requires Inv(crc, f) && f.held == [] && f.pending.NoFrame? && !Occurs(noise) && frame.Fits()
    requires Allowed(phase, frame.command)
    ensures FilterAll(crc, f, phase, noise + FrameBuild(crc, frame))
         == (Filter([], 0, Captured(FrameBuild(crc, frame))), AsBytes(noise) + [Item.Frame(FrameBuild(crc, frame))])
  {
    BuiltFrame(crc, frame);
    var b := FrameBuild(crc, frame);
    assert LooksLikeFrame(b) by {
      forall i | 0 <= i < 8 ensures b[i] == MAGIC[i] { assert b[i] == b[..8][i]; }
    }
    NoiseThenFrame(crc, f, phase, noise, b);
  }

  lemma AllBytes(items: seq<Item>, held: seq<uint8>, noise: seq<uint8>)
    requires OnlyBytes(items) && Flatten(items) + held == [] + noise
    ensures items + AsBytes(held) == AsBytes(noise)
  {
    FlattenOnlyBytes(items);
    assert [] + noise == noise;
    forall i | 0 <= i < |noise| ensures (items + AsBytes(held))[i] == Byte(noise[i]) {
      assert noise[i] == (Flatten(items) + held)[i];
    }
  }

  lemma {:induction false} FlattenOnlyBytes(items: seq<Item>)
    requires OnlyBytes(items)
    ensures |Flatten(items)| == |items|
    ensures forall i :: 0 <= i < |items| ==> items[i] == Byte(Flatten(items)[i])
  {
    if items == [] {
    } else {
      FlattenOnlyBytes(items[..|items| - 1]);
    }
  }
}
