/** The telemetry queue as a list of records: which queued frame a new one replaces,
    what is evicted for it, and which frame is sent next. */
module TelemetrySpec {
  import opened Widths
  import opened LengthPrefixed

  const HEARTBEAT := 0x0B
  const RPM := 0x0C
  const TEMP := 0x0D
  const CELLS := 0x0E
  const DEVICE_PING := 0x28
  const DEVICE_INFO := 0x29
  const PARAMETER_SETTINGS_ENTRY := 0x2B
  const PARAMETER_WRITE := 0x2D
  const COMMAND := 0x32
  const ARDUPILOT_RESP := 0x80
  const AP_STATUS_TEXT := 0xF1
  const ADDRESS_CRSF_RECEIVER := 0xEC
  const ADDRESS_FLIGHT_CONTROLLER := 0xC8
  const SUBCMD_RX := 0x10
  const SUBCMD_RX_BIND := 0x01

  /** A CRSF frame: address, length of the rest, type, payload, checksum. Frames with an
      extended header carry destination and origin before the payload. */
  predicate IsFrame(f: seq<uint8>) {
    && 4 <= |f| <= 64 && |f| - 2 == f[1]
    && (f[2] >= DEVICE_PING ==> |f| >= 6)
  }

  type Frame = f: seq<uint8> | IsFrame(f) witness [0, 2, 0, 0]

  predicate IsPrioritised(frameType: uint8) { DEVICE_PING <= frameType <= PARAMETER_WRITE }

  /** Commands to the receiver itself: bootloader, bind, model match, device ping. */
  predicate IsInternal(f: Frame) {
    if f[2] == COMMAND then
      || (f[3] == 'b' as int && (f[4] == 'l' as int || f[4] == 'd' as int))
      || (f[3] == 'm' as int && f[4] == 'm' as int)
      || (f[1] >= 6 && f[3] == ADDRESS_CRSF_RECEIVER && f[4] == ADDRESS_FLIGHT_CONTROLLER
          && f[5] == SUBCMD_RX && f[6] == SUBCMD_RX_BIND)
    else f[2] == DEVICE_PING && f[3] == ADDRESS_CRSF_RECEIVER
  }

  predicate Discarded(f: Frame) { f[2] == HEARTBEAT || IsInternal(f) }

  // ----- which queued frame a new one replaces -----

  predicate HasComparator(frameType: uint8) {
    frameType in {RPM, TEMP, CELLS, ARDUPILOT_RESP, DEVICE_INFO, PARAMETER_SETTINGS_ENTRY}
  }

  predicate Searches(f: Frame) { HasComparator(f[2]) || f[2] < DEVICE_PING }

  /** Queued records: the slot starts with a frame and may be longer than it. */
  predicate GoodSlot(s: Slot) {
    |s| <= 64 && |s| >= 4 && s[1] + 2 <= |s| && IsFrame(s[..s[1] + 2])
  }

  predicate Good(rs: seq<Record>) { forall i :: 0 <= i < |rs| ==> GoodSlot(rs[i].slot) }

  function FrameOf(s: Slot): Frame
    requires GoodSlot(s)
  {
    s[..s[1] + 2]
  }

  /** The comparator of the frame's type, on a queued slot of the same type. */
  predicate Compare(f: Frame, s: Slot)
    requires GoodSlot(s) && s[2] == f[2]
  {
    if f[2] == RPM || f[2] == TEMP || f[2] == CELLS then s[3] == f[3]
    else if f[2] == ARDUPILOT_RESP then s[3] == AP_STATUS_TEXT && f[3] == AP_STATUS_TEXT
    else if f[2] == DEVICE_INFO then (assert IsFrame(s[..s[1] + 2]); s[3] == f[3] && s[4] == f[4])
    else true
  }

  predicate Hit(r: Record, f: Frame)
    requires GoodSlot(r.slot)
  {
    !r.deleted && r.slot[2] == f[2] && Compare(f, r.slot)
  }

  /** Index of the first record the new frame replaces, or the number of records. */
  function FindHit(rs: seq<Record>, f: Frame): (k: nat)
    requires Good(rs)
    ensures k <= |rs|
    ensures k < |rs| ==> Hit(rs[k], f)
    ensures forall j :: 0 <= j < k ==> !Hit(rs[j], f)
  {
    if rs == [] then 0
    else if Hit(rs[0], f) then 0
    else 1 + FindHit(rs[1..], f)
  }

  function AppendRecord(rs: seq<Record>, f: Frame): seq<Record> {
    Evict(rs, |f| + 1) + [Record(false, f)]
  }

  /** The queue after a frame: replaced in place when it fits the old slot, otherwise the
      old record is marked deleted and the frame goes to the end. */
  function Append(rs: seq<Record>, f: Frame): seq<Record>
    requires Good(rs)
  {
    var k := FindHit(rs, f);
    if Discarded(f) then rs
    else if !Searches(f) || k == |rs| then AppendRecord(rs, f)
    else if |rs[k].slot| >= |f| then rs[k := Record(false, f + rs[k].slot[|f|..])]
    else AppendRecord(rs[k := Record(true, rs[k].slot)], f)
  }

  function CountAfterAppend(count: uint8, f: Frame): uint8 {
    if !Discarded(f) && IsPrioritised(f[2]) then Wrap8(count + 1) else count
  }

  // ----- which frame is sent next -----

  /** Index of the first live record with a prioritised type, or the number of records. */
  function FindPrioritised(rs: seq<Record>): (k: nat)
    requires Good(rs)
    ensures k <= |rs|
    ensures k < |rs| ==> !rs[k].deleted && IsPrioritised(rs[k].slot[2])
    ensures forall j :: 0 <= j < k ==> rs[j].deleted || !IsPrioritised(rs[j].slot[2])
  {
    if rs == [] then 0
    else if !rs[0].deleted && IsPrioritised(rs[0].slot[2]) then 0
    else 1 + FindPrioritised(rs[1..])
  }

  function FindLive(rs: seq<Record>): (k: nat)
    ensures k <= |rs|
    ensures k < |rs| ==> !rs[k].deleted
    ensures forall j :: 0 <= j < k ==> rs[j].deleted
  {
    if rs == [] then 0 else if !rs[0].deleted then 0 else 1 + FindLive(rs[1..])
  }

  datatype Next = NoFrame | NextFrame(frame: Frame)

  /** Queue, priority count and frame after asking for the next payload. */
  function GetNext(rs: seq<Record>, count: uint8): (seq<Record>, uint8, Next)
    requires Good(rs)
  {
    var k := FindPrioritised(rs);
    if count > 0 && k < |rs| then
      (if k == 0 then rs[1..] else rs[k := Record(true, rs[k].slot)], count - 1, NextFrame(FrameOf(rs[k].slot)))
    else
      var h := FindLive(rs);
      if h == |rs| then ([], 0, NoFrame)
      else
        (rs[h + 1..], 0, NextFrame(FrameOf(rs[h].slot)))
  }

  // ----- the scans find what the definitions name, and slots stay good -----

  lemma HitIsFirst(rs: seq<Record>, f: Frame, k: nat)
    requires Good(rs) && k <= |rs|
    requires forall j :: 0 <= j < k ==> !Hit(rs[j], f)
    requires k < |rs| ==> Hit(rs[k], f)
    ensures FindHit(rs, f) == k
  {
  }

  lemma PrioritisedIsFirst(rs: seq<Record>, k: nat)
    requires Good(rs) && k <= |rs|
    requires forall j :: 0 <= j < k ==> (rs[j].deleted || !IsPrioritised(rs[j].slot[2]))
    requires k < |rs| ==> !rs[k].deleted && IsPrioritised(rs[k].slot[2])
    ensures FindPrioritised(rs) == k
  {
  }

  lemma ReplacedIsGood(rs: seq<Record>, k: nat, r: Record)
    requires Good(rs) && k < |rs| && GoodSlot(r.slot)
    ensures Good(rs[k := r])
  {
  }

  lemma OverwrittenIsGood(rs: seq<Record>, k: nat, f: Frame)
    requires Good(rs) && k < |rs| && |rs[k].slot| >= |f|
    ensures GoodSlot(f + rs[k].slot[|f|..]) && FrameOf(f + rs[k].slot[|f|..]) == f
    ensures Good(rs[k := Record(false, f + rs[k].slot[|f|..])])
  {
    var s := f + rs[k].slot[|f|..];
    assert s[..s[1] + 2] == f;
    ReplacedIsGood(rs, k, Record(false, s));
  }

  lemma AppendedIsGood(rs: seq<Record>, f: Frame)
    requires Good(rs)
    ensures Good(AppendRecord(rs, f)) && FrameOf(f) == f
  {
    var d := EvictIsShortestPrefix(rs, |f| + 1);
    assert f[..f[1] + 2] == f;
    assert forall r :: r in rs[d..] ==> r in rs;
  }

  lemma TailIsGood(rs: seq<Record>)
    requires Good(rs) && rs != []
    ensures Good(rs[1..])
  {
    assert forall r :: r in rs[1..] ==> r in rs;
  }

  lemma PositionZero(rs: seq<Record>, k: nat)
    requires k < |rs|
    ensures Position(rs, k) == 0 <==> k == 0
  {
    if k > 0 { EncodeSplit(rs, k - 1); }
  }

  function Overlaid(before: seq<uint8>, p: nat, bytes: seq<uint8>): seq<uint8>
    requires p + |bytes| <= |before|
  {
    before[..p] + bytes + before[p + |bytes|..]
  }

  lemma OverlaidStep(before: seq<uint8>, p: nat, bytes: seq<uint8>, i: nat)
    requires p + |bytes| <= |before| && i < |bytes|
    ensures |Overlaid(before, p, bytes[..i])| == |before|
    ensures Overlaid(before, p, bytes[..i])[p + i := bytes[i]] == Overlaid(before, p, bytes[..i + 1])
  {
  }

  lemma SpliceOverlay(a: seq<uint8>, h: uint8, s: seq<uint8>, c: seq<uint8>, f: seq<uint8>)
    requires |f| <= |s|
    ensures a + ([h] + (f + s[|f|..])) + c == Overlaid(a + ([h] + s) + c, |a| + 1, f)
  {
    var e := a + ([h] + s) + c;
    assert e[..|a| + 1] == a + [h];
    assert e[|a| + 1 + |f|..] == s[|f|..] + c;
  }

  /** Overwriting the start of a slot leaves an encoded queue: the record keeps its length. */
  lemma OverwrittenEncoding(rs: seq<Record>, k: nat, f: Frame)
    requires k < |rs| && !rs[k].deleted && |rs[k].slot| >= |f|
    ensures Position(rs, k) + 1 + |f| <= |Encode(rs)|
    ensures Encode(rs[k := Record(false, f + rs[k].slot[|f|..])]) == Overlaid(Encode(rs), Position(rs, k) + 1, f)
  {
    var rs' := rs[k := Record(false, f + rs[k].slot[|f|..])];
    EncodeSplit(rs, k);
    EncodeSplit(rs', k);
    assert rs'[..k] == rs[..k] && rs'[k + 1..] == rs[k + 1..];
    SpliceOverlay(Encode(rs[..k]), Header(rs[k]), rs[k].slot, Encode(rs[k + 1..]), f);
  }

  lemma SpliceHeader(a: seq<uint8>, h: uint8, s: seq<uint8>, c: seq<uint8>, h': uint8)
    ensures (a + ([h] + s) + c)[|a| := h'] == a + ([h'] + s) + c
  {
  }

  /** Setting the deleted bit changes the length byte and nothing else. */
  lemma DeletedEncoding(rs: seq<Record>, k: nat)
    requires k < |rs|
    ensures Position(rs, k) < |Encode(rs)|
    ensures Encode(rs[k := Record(true, rs[k].slot)]) == Encode(rs)[Position(rs, k) := SetDel(|rs[k].slot|)]
  {
    var rs' := rs[k := Record(true, rs[k].slot)];
    EncodeSplit(rs, k);
    EncodeSplit(rs', k);
    assert rs'[..k] == rs[..k] && rs'[k + 1..] == rs[k + 1..];
    SpliceHeader(Encode(rs[..k]), Header(rs[k]), rs[k].slot, Encode(rs[k + 1..]), SetDel(|rs[k].slot|));
  }
}
