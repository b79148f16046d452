/** What the telemetry queue promises over whole runs: one live frame per overwrite key,
    and it is the newest; otherwise a plain list served oldest first, prioritised frames
    before the others. */
module TelemetryGuarantees {
  import opened Widths
  import opened ByteFifo
  import opened LengthPrefixed
  import opened TelemetrySpec

  /** What makes one frame replace another. */
  datatype Key = NoKey | Key(frameType: uint8, first: uint8, second: uint8)

  function KeyOf(f: Frame): Key {
    if f[2] == RPM || f[2] == TEMP || f[2] == CELLS then Key(f[2], f[3], 0)
    else if f[2] == ARDUPILOT_RESP then (if f[3] == AP_STATUS_TEXT then Key(f[2], f[3], 0) else NoKey)
    else if f[2] == DEVICE_INFO then Key(f[2], f[3], f[4])
    else if f[2] == PARAMETER_SETTINGS_ENTRY || f[2] < DEVICE_PING then Key(f[2], 0, 0)
    else NoKey
  }

  function LiveOne(r: Record): (fs: seq<Frame>)
    requires GoodSlot(r.slot)
    ensures |fs| <= 1
  {
    if r.deleted then [] else [FrameOf(r.slot)]
  }

  /** The live frames, oldest first. */
  function Live(rs: seq<Record>): (fs: seq<Frame>)
    requires Good(rs)
    ensures |fs| <= |rs|
  {
    if rs == [] then []
    else
      TailIsGood(rs);
      LiveOne(rs[0]) + Live(rs[1..])
  }

  /** The comparators and the table of types amount to equality of keys. */
  lemma HitMeansSameKey(s: Slot, f: Frame)
    requires GoodSlot(s)
    ensures Hit(Record(false, s), f) && Searches(f) <==> KeyOf(FrameOf(s)) == KeyOf(f) && KeyOf(f) != NoKey
  {
    assert IsFrame(s[..s[1] + 2]);
  }

  lemma GoodParts(xs: seq<Record>, ys: seq<Record>)
    requires Good(xs + ys)
    ensures Good(xs) && Good(ys)
  {
    assert forall i :: 0 <= i < |xs| ==> xs[i] == (xs + ys)[i];
    assert forall i :: 0 <= i < |ys| ==> ys[i] == (xs + ys)[|xs| + i];
  }

  lemma {:induction false} LiveConcat(xs: seq<Record>, ys: seq<Record>)
    requires Good(xs) && Good(ys) && Good(xs + ys)
    ensures Live(xs + ys) == Live(xs) + Live(ys)
  {
    if xs == [] {
      assert xs + ys == ys;
    } else {
      TailIsGood(xs);
      TailIsGood(xs + ys);
      FirstApart(xs, ys);
      LiveConcat(xs[1..], ys);
      Reassociate(LiveOne(xs[0]), Live(xs[1..]), Live(ys));
    }
  }

  lemma Reassociate(a: seq<Frame>, b: seq<Frame>, c: seq<Frame>)
    ensures a + (b + c) == (a + b) + c
  {
  }

  lemma LiveSingle(r: Record)
    requires GoodSlot(r.slot)
    ensures Good([r]) && Live([r]) == LiveOne(r)
  {
    assert Live([r]) == LiveOne(r) + Live([r][1..]);
  }

  lemma LiveOfThree(xs: seq<Record>, r: Record, ys: seq<Record>)
    requires Good(xs) && GoodSlot(r.slot) && Good(ys) && Good(xs + [r]) && Good(xs + [r] + ys)
    ensures Live(xs + [r] + ys) == Live(xs) + LiveOne(r) + Live(ys)
  {
    LiveConcat(xs + [r], ys);
    LiveConcat(xs, [r]);
    LiveSingle(r);
  }

  lemma CutAt<T>(s: seq<T>, k: nat)
    requires k < |s|
    ensures s == s[..k] + [s[k]] + s[k + 1..]
  {
  }

  lemma GoodCut(rs: seq<Record>, k: nat)
    requires Good(rs) && k < |rs|
    ensures Good(rs[..k]) && GoodSlot(rs[k].slot) && Good(rs[k + 1..]) && Good(rs[..k] + [rs[k]])
  {
  }

  /** Live frames before, at and after one record. */
  lemma LiveSplit(rs: seq<Record>, k: nat)
    requires Good(rs) && k < |rs|
    ensures Good(rs[..k]) && Good(rs[k + 1..])
    ensures Live(rs) == Live(rs[..k]) + LiveOne(rs[k]) + Live(rs[k + 1..])
  {
    GoodCut(rs, k);
    CutAt(rs, k);
    LiveOfThree(rs[..k], rs[k], rs[k + 1..]);
  }

  /** The place of a live record in the list. */
  lemma LiveAt(rs: seq<Record>, k: nat) returns (i: nat)
    requires Good(rs) && k < |rs| && !rs[k].deleted
    ensures Good(rs[..k]) && Good(rs[k + 1..]) && GoodSlot(rs[k].slot) && i == |Live(rs[..k])| < |Live(rs)|
    ensures Live(rs)[i] == FrameOf(rs[k].slot)
    ensures Live(rs)[..i] == Live(rs[..k]) && Live(rs)[i + 1..] == Live(rs[k + 1..])
  {
    LiveSplit(rs, k);
    i := |Live(rs[..k])|;
  }

  lemma LiveReplaced(rs: seq<Record>, k: nat, r: Record)
    requires Good(rs) && k < |rs| && GoodSlot(r.slot)
    ensures Good(rs[k := r]) && Good(rs[..k]) && Good(rs[k + 1..])
    ensures Live(rs[k := r]) == Live(rs[..k]) + LiveOne(r) + Live(rs[k + 1..])
  {
    ReplacedIsGood(rs, k, r);
    LiveSplit(rs, k);
    LiveSplit(rs[k := r], k);
    assert rs[k := r][..k] == rs[..k] && rs[k := r][k + 1..] == rs[k + 1..];
  }

  lemma LiveSuffix(rs: seq<Record>, d: nat) returns (e: nat)
    requires Good(rs) && d <= |rs|
    ensures Good(rs[d..]) && e <= |Live(rs)| && Live(rs[d..]) == Live(rs)[e..]
  {
    assert rs == rs[..d] + rs[d..];
    GoodParts(rs[..d], rs[d..]);
    LiveConcat(rs[..d], rs[d..]);
    e := |Live(rs[..d])|;
  }

  // ----- the queue as a plain list -----

  predicate DistinctKeys(fs: seq<Frame>) {
    forall i, j :: 0 <= i < j < |fs| && KeyOf(fs[i]) == KeyOf(fs[j]) ==> KeyOf(fs[i]) == NoKey
  }

  /** The list without the frame that `f` replaces. */
  function WithoutKey(fs: seq<Frame>, f: Frame): seq<Frame> {
    if fs == [] || KeyOf(f) == NoKey then fs
    else if KeyOf(fs[0]) == KeyOf(f) then fs[1..]
    else [fs[0]] + WithoutKey(fs[1..], f)
  }

  lemma {:induction false} WithoutKeyAt(fs: seq<Frame>, f: Frame, i: nat)
    requires i < |fs| && KeyOf(f) != NoKey && KeyOf(fs[i]) == KeyOf(f)
    requires forall j :: 0 <= j < i ==> KeyOf(fs[j]) != KeyOf(f)
    ensures WithoutKey(fs, f) == fs[..i] + fs[i + 1..]
  {
    if i == 0 {
    } else {
      WithoutKeyAt(fs[1..], f, i - 1);
      CutBehindFirst(fs, i);
    }
  }

  lemma CutBehindFirst<T>(fs: seq<T>, i: nat)
    requires 0 < i < |fs|
    ensures [fs[0]] + (fs[1..][..i - 1] + fs[1..][i..]) == fs[..i] + fs[i + 1..]
  {
  }

  lemma {:induction false} WithoutAbsentKey(fs: seq<Frame>, f: Frame)
    requires forall j :: 0 <= j < |fs| ==> KeyOf(fs[j]) != KeyOf(f) || KeyOf(f) == NoKey
    ensures WithoutKey(fs, f) == fs
  {
    if fs != [] && KeyOf(f) != NoKey {
      WithoutAbsentKey(fs[1..], f);
    }
  }

  /** Records before the hit carry other keys. */
  lemma {:induction false} NoHitNoKey(rs: seq<Record>, f: Frame)
    requires Good(rs) && (forall r :: r in rs ==> !Hit(r, f) || !Searches(f))
    ensures forall j :: 0 <= j < |Live(rs)| ==> KeyOf(Live(rs)[j]) != KeyOf(f) || KeyOf(f) == NoKey
  {
    if rs == [] {
    } else {
      TailIsGood(rs);
      HitMeansSameKey(rs[0].slot, f);
      assert rs[0].deleted || rs[0] == Record(false, rs[0].slot);
      assert forall r :: r in rs[1..] ==> r in rs;
      NoHitNoKey(rs[1..], f);
    }
  }

  datatype Effect = Ignored | ReplacedAt(index: nat) | AppendedAfterDropping(count: nat)

  /** What adding a frame does to the list. */
  function ApplyEffect(fs: seq<Frame>, f: Frame, e: Effect): seq<Frame> {
    match e
    case Ignored => fs
    case ReplacedAt(i) => if i < |fs| then fs[i := f] else fs
    case AppendedAfterDropping(n) =>
      var rest := WithoutKey(fs, f);
      (if n <= |rest| then rest[n..] else []) + [f]
  }

  lemma AppendAtEnd(rs: seq<Record>, f: Frame) returns (n: nat)
    requires Good(rs)
    ensures Good(AppendRecord(rs, f)) && n <= |Live(rs)|
    ensures Live(AppendRecord(rs, f)) == Live(rs)[n..] + [f]
  {
    AppendedIsGood(rs, f);
    var d := EvictIsShortestPrefix(rs, |f| + 1);
    n := LiveSuffix(rs, d);
    var one := [Record(false, f)];
    GoodParts(rs[d..], one);
    LiveConcat(rs[d..], one);
    LiveSingle(one[0]);
  }

  /** The record hit by a frame, as a place in the list: nothing before it has its key. */
  lemma HitInList(rs: seq<Record>, f: Frame, k: nat) returns (i: nat)
    requires Good(rs) && k == FindHit(rs, f) < |rs| && Searches(f)
    ensures Good(rs[..k]) && Good(rs[k + 1..]) && GoodSlot(rs[k].slot) && i == |Live(rs[..k])|
    ensures i < |Live(rs)| && KeyOf(Live(rs)[i]) == KeyOf(f) != NoKey
    ensures Live(rs)[..i] == Live(rs[..k]) && Live(rs)[i + 1..] == Live(rs[k + 1..])
    ensures forall j :: 0 <= j < i ==> KeyOf(Live(rs)[j]) != KeyOf(f)
  {
    i := LiveAt(rs, k);
    HitMeansSameKey(rs[k].slot, f);
    assert rs[k] == Record(false, rs[k].slot);
    NoHitNoKey(rs[..k], f);
    assert forall j :: 0 <= j < i ==> Live(rs)[j] == Live(rs[..k])[j];
  }

  lemma UpdateSplits<T>(xs: seq<T>, i: nat, x: T)
    requires i < |xs|
    ensures xs[i := x] == xs[..i] + [x] + xs[i + 1..]
  {
  }

  lemma EmptyMiddle<T>(a: seq<T>, c: seq<T>)
    ensures a + [] + c == a + c
  {
  }

  lemma ReplaceRefinesList(rs: seq<Record>, f: Frame, k: nat) returns (i: nat)
    requires Good(rs) && k == FindHit(rs, f) < |rs| && Searches(f) && |rs[k].slot| >= |f|
    ensures var rs' := rs[k := Record(false, f + rs[k].slot[|f|..])];
            Good(rs') && i < |Live(rs)| && Live(rs') == Live(rs)[i := f]
    ensures KeyOf(Live(rs)[i]) == KeyOf(f) != NoKey
  {
    i := HitInList(rs, f, k);
    OverwrittenIsGood(rs, k, f);
    LiveReplaced(rs, k, Record(false, f + rs[k].slot[|f|..]));
    UpdateSplits(Live(rs), i, f);
  }

  lemma SupersedeRefinesList(rs: seq<Record>, f: Frame, k: nat)
    requires Good(rs) && k == FindHit(rs, f) < |rs| && Searches(f)
    ensures var rs' := rs[k := Record(true, rs[k].slot)];
            Good(rs') && Live(rs') == WithoutKey(Live(rs), f)
  {
    var i := HitInList(rs, f, k);
    LiveReplaced(rs, k, Record(true, rs[k].slot));
    WithoutKeyAt(Live(rs), f, i);
    EmptyMiddle(Live(rs[..k]), Live(rs[k + 1..]));
  }

  lemma NewKeyRefinesList(rs: seq<Record>, f: Frame) returns (n: nat)
    requires Good(rs) && (!Searches(f) || FindHit(rs, f) == |rs|)
    ensures Good(AppendRecord(rs, f)) && n <= |WithoutKey(Live(rs), f)|
    ensures Live(AppendRecord(rs, f)) == WithoutKey(Live(rs), f)[n..] + [f]
  {
    n := AppendAtEnd(rs, f);
    NoHitNoKey(rs, f);
    WithoutAbsentKey(Live(rs), f);
  }

  lemma OldKeyRefinesList(rs: seq<Record>, f: Frame, k: nat) returns (n: nat)
    requires Good(rs) && k == FindHit(rs, f) < |rs| && Searches(f)
    ensures var rs' := rs[k := Record(true, rs[k].slot)];
            && Good(rs') && Good(AppendRecord(rs', f)) && n <= |WithoutKey(Live(rs), f)|
            && Live(AppendRecord(rs', f)) == WithoutKey(Live(rs), f)[n..] + [f]
  {
    SupersedeRefinesList(rs, f, k);
    n := AppendAtEnd(rs[k := Record(true, rs[k].slot)], f);
  }

  /** The queue a frame is put behind: one that supersedes an older frame finds that one
      marked deleted, in as many bytes. */
  function Behind(rs: seq<Record>, f: Frame): seq<Record>
    requires Good(rs)
  {
    var k := FindHit(rs, f);
    if Searches(f) && k < |rs| then rs[k := Record(true, rs[k].slot)] else rs
  }

  /** The first `d` records make way, and one fewer would have left too little room in the
      512 bytes for the frame and its length byte. */
  predicate DropsLeast(rs: seq<Record>, f: Frame, rs': seq<Record>, d: nat) {
    && d <= |rs| && rs' == rs[d..] + [Record(false, f)]
    && (d > 0 ==> |Encode(rs[d - 1..])| + |f| + 1 >= 512)
  }

  lemma RecordDropsLeast(rs: seq<Record>, f: Frame) returns (d: nat)
    ensures DropsLeast(rs, f, AppendRecord(rs, f), d)
  {
    d := EvictIsShortestPrefix(rs, |f| + 1);
    assert d > 0 ==> !Fits(rs[d - 1..], |f| + 1);
  }

  lemma BehindIsAsLong(rs: seq<Record>, f: Frame)
    requires Good(rs)
    ensures |Encode(Behind(rs, f))| == |Encode(rs)| && |Behind(rs, f)| == |rs|
  {
    var k := FindHit(rs, f);
    if k < |rs| {
      EncodeReplace(rs, k, Record(true, rs[k].slot));
    }
  }

  /** A frame that neither is kept from the queue nor takes an old one's place drops no more
      than it must. */
  lemma AppendDropsLeast(rs: seq<Record>, f: Frame) returns (d: nat)
    requires Good(rs) && !Discarded(f)
    requires Searches(f) && FindHit(rs, f) < |rs| ==> |rs[FindHit(rs, f)].slot| < |f|
    ensures DropsLeast(Behind(rs, f), f, Append(rs, f), d)
  {
    d := RecordDropsLeast(Behind(rs, f), f);
  }

  lemma NothingToDrop(rs: seq<Record>, f: Frame, rs': seq<Record>, d: nat)
    requires DropsLeast(rs, f, rs', d) && |Encode(rs)| + |f| + 1 < 512
    ensures d == 0
  {
    if d > 0 {
      SuffixIsShorter(rs, d - 1);
    }
  }

  /** With room for it the frame costs nothing: the list keeps every frame of another key. */
  lemma RoomyAppendKeepsAll(rs: seq<Record>, f: Frame)
    requires Good(rs) && !Discarded(f) && |Encode(rs)| + |f| + 1 < 512
    requires Searches(f) && FindHit(rs, f) < |rs| ==> |rs[FindHit(rs, f)].slot| < |f|
    ensures Append(rs, f) == Behind(rs, f) + [Record(false, f)]
    ensures Good(Append(rs, f)) && Live(Append(rs, f)) == WithoutKey(Live(rs), f) + [f]
  {
    var d := AppendDropsLeast(rs, f);
    BehindIsAsLong(rs, f);
    NothingToDrop(Behind(rs, f), f, Append(rs, f), d);
    assert Behind(rs, f)[0..] == Behind(rs, f);
    LiveBehind(rs, f);
    GoodWithLast(Behind(rs, f), f);
  }

  lemma LiveBehind(rs: seq<Record>, f: Frame)
    requires Good(rs)
    ensures Good(Behind(rs, f)) && Live(Behind(rs, f)) == WithoutKey(Live(rs), f)
  {
    var k := FindHit(rs, f);
    if Searches(f) && k < |rs| {
      SupersedeRefinesList(rs, f, k);
    } else {
      NoHitNoKey(rs, f);
      WithoutAbsentKey(Live(rs), f);
    }
  }

  lemma GoodWithLast(rs: seq<Record>, f: Frame)
    requires Good(rs)
    ensures Good(rs + [Record(false, f)]) && Live(rs + [Record(false, f)]) == Live(rs) + [f]
  {
    var one := [Record(false, f)];
    assert f[..f[1] + 2] == f;
    LiveSingle(one[0]);
    LiveConcat(rs, one);
  }

  /** Only heartbeats, commands and pings are ever kept from the queue: every other frame is
      in it after its append. */
  lemma OrdinaryFramesAreQueued(rs: seq<Record>, f: Frame)
    requires Good(rs) && f[2] != HEARTBEAT && f[2] != COMMAND && f[2] != DEVICE_PING
    ensures Good(Append(rs, f)) && f in Live(Append(rs, f))
  {
    var e := AppendRefinesList(rs, f);
    match e {
      case ReplacedAt(i) => assert Live(Append(rs, f))[i] == f;
      case AppendedAfterDropping(n) => assert Live(Append(rs, f))[|Live(Append(rs, f))| - 1] == f;
    }
  }

  /** Appending refines the list: a frame with the key of a live one either takes its place
      or supersedes it at the end; any other frame goes to the end; the oldest frames make
      room, and no more of them than must. */
  lemma AppendRefinesList(rs: seq<Record>, f: Frame) returns (e: Effect)
    requires Good(rs)
    ensures Good(Append(rs, f)) && Live(Append(rs, f)) == ApplyEffect(Live(rs), f, e)
    ensures (e.Ignored? <==> Discarded(f)) && Fitting(Live(rs), f, e)
    ensures e.ReplacedAt? <==>
              !Discarded(f) && Searches(f) && FindHit(rs, f) < |rs| && |rs[FindHit(rs, f)].slot| >= |f|
    ensures e.AppendedAfterDropping? ==> exists d: nat :: DropsLeast(Behind(rs, f), f, Append(rs, f), d)
  {
    var k := FindHit(rs, f);
    if Discarded(f) {
      e := Ignored;
    } else if !Searches(f) || k == |rs| {
      var n := NewKeyRefinesList(rs, f);
      e := AppendedAfterDropping(n);
      var d := AppendDropsLeast(rs, f);
    } else if |rs[k].slot| >= |f| {
      var i := ReplaceRefinesList(rs, f, k);
      e := ReplacedAt(i);
    } else {
      var n := OldKeyRefinesList(rs, f, k);
      e := AppendedAfterDropping(n);
      var d := AppendDropsLeast(rs, f);
    }
  }

  lemma {:induction false} FirstPrioritisedLive(rs: seq<Record>, k: nat)
    requires Good(rs) && k <= |rs|
    requires forall j :: 0 <= j < k ==> (rs[j].deleted || !IsPrioritised(rs[j].slot[2]))
    ensures Good(rs[..k]) && forall i :: 0 <= i < |Live(rs[..k])| ==> !IsPrioritised(Live(rs[..k])[i][2])
  {
    assert forall r :: r in rs[..k] ==> r in rs;
    if k == 0 {
    } else {
      TailIsGood(rs);
      assert forall j :: 0 <= j < k - 1 ==> rs[1..][j] == rs[j + 1] ;
      FirstPrioritisedLive(rs[1..], k - 1);
      assert rs[1..][..k - 1] == rs[..k][1..];
    }
  }

  predicate AnyPrioritised(fs: seq<Frame>) {
    exists i :: 0 <= i < |fs| && IsPrioritised(fs[i][2])
  }

  lemma RemovalFromList(rs: seq<Record>, k: nat, i: nat)
    requires Good(rs) && k < |rs| && !rs[k].deleted && GoodSlot(rs[k].slot)
    requires Good(rs[..k]) && Good(rs[k + 1..]) && i == |Live(rs[..k])| < |Live(rs)|
    requires Live(rs)[..i] == Live(rs[..k]) && Live(rs)[i + 1..] == Live(rs[k + 1..])
    ensures var rs' := if k == 0 then rs[1..] else rs[k := Record(true, rs[k].slot)];
            Good(rs') && Live(rs') == Live(rs)[..i] + Live(rs)[i + 1..]
  {
    if k == 0 {
      assert Live(rs[..0]) == [];
      assert [] + Live(rs[1..]) == Live(rs[1..]);
    } else {
      LiveReplaced(rs, k, Record(true, rs[k].slot));
      EmptyMiddle(Live(rs[..k]), Live(rs[k + 1..]));
    }
  }

  lemma TakePrioritisedRefinesList(rs: seq<Record>, count: uint8) returns (i: nat)
    requires Good(rs) && count > 0 && FindPrioritised(rs) < |rs|
    ensures var (rs', count', next) := GetNext(rs, count);
            && Good(rs') && i < |Live(rs)| && next == NextFrame(Live(rs)[i])
            && Live(rs') == Live(rs)[..i] + Live(rs)[i + 1..]
    ensures FirstPrioritisedAt(Live(rs), i)
  {
    var k := FindPrioritised(rs);
    i := LiveAt(rs, k);
    RemovalFromList(rs, k, i);
    NothingPrioritisedBefore(rs, k, i);
  }

  predicate FirstPrioritisedAt(fs: seq<Frame>, i: nat) {
    i < |fs| && IsPrioritised(fs[i][2]) && forall j :: 0 <= j < i ==> !IsPrioritised(fs[j][2])
  }

  lemma NothingPrioritisedBefore(rs: seq<Record>, k: nat, i: nat)
    requires Good(rs) && k == FindPrioritised(rs) < |rs| && i < |Live(rs)|
    requires GoodSlot(rs[k].slot) && Live(rs)[i] == FrameOf(rs[k].slot)
    requires Good(rs[..k]) && i == |Live(rs[..k])| && Live(rs)[..i] == Live(rs[..k])
    ensures FirstPrioritisedAt(Live(rs), i)
  {
    FirstPrioritisedLive(rs, k);
    assert forall j :: 0 <= j < i ==> Live(rs)[j] == Live(rs)[..i][j];
  }

  /** Taking the next frame refines the list: with a positive priority count the first
      prioritised frame leaves it, otherwise the oldest frame does. */
  lemma GetNextRefinesList(rs: seq<Record>, count: uint8) returns (i: nat)
    requires Good(rs)
    ensures Good(GetNext(rs, count).0)
    ensures var (rs', count', next) := GetNext(rs, count);
            if Live(rs) == [] then next == NoFrame && Live(rs') == []
            else
              && i < |Live(rs)| && next == NextFrame(Live(rs)[i])
              && Live(rs') == Live(rs)[..i] + Live(rs)[i + 1..]
              && (if count > 0 && AnyPrioritised(Live(rs))
                  then FirstPrioritisedAt(Live(rs), i) else i == 0)
  {
    i := 0;
    var k := FindPrioritised(rs);
    if count > 0 && k < |rs| {
      i := TakePrioritisedRefinesList(rs, count);
    } else {
      HeadIsTaken(rs, count);
      if count > 0 {
        NoneIsPrioritised(rs);
      }
    }
  }

  lemma NoneIsPrioritised(rs: seq<Record>)
    requires Good(rs) && FindPrioritised(rs) == |rs|
    ensures !AnyPrioritised(Live(rs))
  {
    FirstPrioritisedLive(rs, |rs|);
    assert rs[..|rs|] == rs;
  }

  lemma HeadIsTaken(rs: seq<Record>, count: uint8)
    requires Good(rs) && (count == 0 || FindPrioritised(rs) == |rs|)
    ensures var (rs', count', next) := GetNext(rs, count);
            && Good(rs')
            && (if Live(rs) == [] then next == NoFrame && Live(rs') == []
                else next == NextFrame(Live(rs)[0]) && Live(rs') == Live(rs)[1..])
  {
    HeadRefinesList(rs);
  }

  lemma {:induction false} AllDeletedNoLive(rs: seq<Record>)
    requires Good(rs) && (forall r :: r in rs ==> r.deleted)
    ensures Live(rs) == []
  {
    if rs == [] {
    } else {
      TailIsGood(rs);
      assert forall r :: r in rs[1..] ==> r in rs;
      AllDeletedNoLive(rs[1..]);
    }
  }

  lemma HeadRefinesList(rs: seq<Record>)
    requires Good(rs)
    ensures var h := FindLive(rs);
            if h == |rs| then Live(rs) == []
            else Good(rs[h + 1..]) && Live(rs) == [FrameOf(rs[h].slot)] + Live(rs[h + 1..])
  {
    var h := FindLive(rs);
    if h == |rs| {
      AllDeletedNoLive(rs);
    } else {
      LiveSplit(rs, h);
      AllDeletedNoLive(rs[..h]);
      assert [] + LiveOne(rs[h]) == LiveOne(rs[h]);
    }
  }

  // ----- whole runs -----

  datatype Op = AppendOp(frame: Frame) | NextOp

  /** The queue with the log of accepted frames and what each `NextOp` returned. */
  datatype Session = Session(rs: seq<Record>, count: uint8, log: seq<Frame>, last: Next)

  function Apply(s: Session, op: Op): Session
    requires Good(s.rs)
  {
    match op
    case AppendOp(f) =>
      Session(Append(s.rs, f), CountAfterAppend(s.count, f), if Discarded(f) then s.log else s.log + [f], NoFrame)
    case NextOp =>
      var (rs, count, next) := GetNext(s.rs, s.count);
      Session(rs, count, s.log, next)
  }

  /** The newest accepted frame with a key is `f`. */
  predicate IsLatest(log: seq<Frame>, f: Frame) {
    exists i :: 0 <= i < |log| && log[i] == f
        && forall j :: i < j < |log| ==> KeyOf(log[j]) != KeyOf(f) || KeyOf(f) == NoKey
  }

  predicate AllLatest(log: seq<Frame>, fs: seq<Frame>) {
    forall i :: 0 <= i < |fs| ==> IsLatest(log, fs[i])
  }

  predicate SessionInv(s: Session) {
    Good(s.rs) && |Encode(s.rs)| < FIFO_SIZE && DistinctKeys(Live(s.rs)) && AllLatest(s.log, Live(s.rs))
  }

  lemma LatestAfter(log: seq<Frame>, g: Frame, f: Frame)
    requires IsLatest(log, g) && (KeyOf(g) != KeyOf(f) || KeyOf(g) == NoKey)
    ensures IsLatest(log + [f], g)
  {
    var i :| 0 <= i < |log| && log[i] == g
        && forall j :: i < j < |log| ==> KeyOf(log[j]) != KeyOf(g) || KeyOf(g) == NoKey;
    assert (log + [f])[i] == g;
  }

  lemma NewestIsLatest(log: seq<Frame>, f: Frame)
    ensures IsLatest(log + [f], f)
  {
    assert (log + [f])[|log|] == f;
  }

  /** The kept frames: distinct, old ones, none with the key of `f`. */
  predicate KeptWithout(kept: seq<Frame>, fs: seq<Frame>, f: Frame) {
    && DistinctKeys(kept)
    && forall i :: 0 <= i < |kept| ==> kept[i] in fs && (KeyOf(kept[i]) != KeyOf(f) || KeyOf(kept[i]) == NoKey)
  }

  lemma TailDistinct(fs: seq<Frame>)
    requires fs != [] && DistinctKeys(fs)
    ensures DistinctKeys(fs[1..])
    ensures forall g :: g in fs[1..] ==> KeyOf(g) != KeyOf(fs[0]) || KeyOf(fs[0]) == NoKey
  {
    forall g | g in fs[1..] ensures KeyOf(g) != KeyOf(fs[0]) || KeyOf(fs[0]) == NoKey {
      var m :| 0 <= m < |fs[1..]| && fs[1..][m] == g;
      assert fs[m + 1] == g;
    }
  }

  lemma KeepFirst(kept: seq<Frame>, fs: seq<Frame>, f: Frame)
    requires fs != [] && DistinctKeys(fs) && KeyOf(fs[0]) != KeyOf(f) && KeptWithout(kept, fs[1..], f)
    ensures KeptWithout([fs[0]] + kept, fs, f)
  {
    TailDistinct(fs);
    forall i | 0 <= i < |kept|
      ensures kept[i] in fs && (KeyOf(kept[i]) != KeyOf(fs[0]) || KeyOf(fs[0]) == NoKey)
    {
      assert kept[i] in fs[1..];
    }
  }

  lemma DropFirst(fs: seq<Frame>, f: Frame)
    requires fs != [] && DistinctKeys(fs) && KeyOf(fs[0]) == KeyOf(f) != NoKey
    ensures KeptWithout(fs[1..], fs, f)
  {
    TailDistinct(fs);
    assert forall i :: 0 <= i < |fs[1..]| ==> fs[1..][i] in fs[1..];
  }

  lemma {:induction false} WithoutKeyProperties(fs: seq<Frame>, f: Frame)
    requires DistinctKeys(fs)
    ensures KeptWithout(WithoutKey(fs, f), fs, f)
  {
    if fs == [] || KeyOf(f) == NoKey {
    } else if KeyOf(fs[0]) != KeyOf(f) {
      TailDistinct(fs);
      WithoutKeyProperties(fs[1..], f);
      KeepFirst(WithoutKey(fs[1..], f), fs, f);
    } else {
      DropFirst(fs, f);
    }
  }

  lemma AppendedStaysLatest(log: seq<Frame>, fs: seq<Frame>, f: Frame, n: nat)
    requires DistinctKeys(fs) && AllLatest(log, fs) && n <= |WithoutKey(fs, f)|
    ensures var fs' := WithoutKey(fs, f)[n..] + [f];
            DistinctKeys(fs') && AllLatest(log + [f], fs')
  {
    WithoutKeyProperties(fs, f);
    NewestIsLatest(log, f);
    var kept := WithoutKey(fs, f)[n..];
    forall i | 0 <= i < |kept|
      ensures IsLatest(log + [f], kept[i]) && (KeyOf(kept[i]) != KeyOf(f) || KeyOf(f) == NoKey)
    {
      assert kept[i] in WithoutKey(fs, f);
      var m :| 0 <= m < |fs| && fs[m] == kept[i];
      LatestAfter(log, kept[i], f);
    }
  }

  lemma ReplacedStaysLatest(log: seq<Frame>, fs: seq<Frame>, f: Frame, i: nat)
    requires DistinctKeys(fs) && AllLatest(log, fs) && i < |fs| && KeyOf(fs[i]) == KeyOf(f) != NoKey
    ensures DistinctKeys(fs[i := f]) && AllLatest(log + [f], fs[i := f])
  {
    NewestIsLatest(log, f);
    forall j | 0 <= j < |fs| && j != i
      ensures IsLatest(log + [f], fs[j])
    {
      LatestAfter(log, fs[j], f);
    }
  }

  lemma DroppingOneStaysDistinct(log: seq<Frame>, fs: seq<Frame>, i: nat)
    requires DistinctKeys(fs) && AllLatest(log, fs) && i < |fs|
    ensures DistinctKeys(fs[..i] + fs[i + 1..]) && AllLatest(log, fs[..i] + fs[i + 1..])
  {
    var fs' := fs[..i] + fs[i + 1..];
    assert forall j :: 0 <= j < |fs'| ==> fs'[j] == fs[if j < i then j else j + 1];
  }

  lemma SuffixIsShorter(rs: seq<Record>, d: nat)
    requires d <= |rs|
    ensures |Encode(rs[d..])| <= |Encode(rs)|
  {
    EncodeConcat(rs[..d], rs[d..]);
    assert rs == rs[..d] + rs[d..];
  }

  lemma AppendStaysInRing(rs: seq<Record>, f: Frame)
    requires Good(rs) && |Encode(rs)| < FIFO_SIZE
    ensures |Encode(Append(rs, f))| < FIFO_SIZE
  {
    var k := FindHit(rs, f);
    var kept := Evict(if k < |rs| then rs[k := Record(true, rs[k].slot)] else rs, |f| + 1);
    EncodeConcat(kept, [Record(false, f)]);
    EncodeConcat(Evict(rs, |f| + 1), [Record(false, f)]);
    EncodeOne(Record(false, f));
    if k < |rs| && |rs[k].slot| >= |f| {
      EncodeReplace(rs, k, Record(false, f + rs[k].slot[|f|..]));
    }
  }

  lemma NextStaysInRing(rs: seq<Record>, count: uint8)
    requires Good(rs) && |Encode(rs)| < FIFO_SIZE
    ensures |Encode(GetNext(rs, count).0)| < FIFO_SIZE
  {
    var k, h := FindPrioritised(rs), FindLive(rs);
    if k < |rs| {
      SuffixIsShorter(rs, 1);
      EncodeReplace(rs, k, Record(true, rs[k].slot));
    }
    if h < |rs| {
      SuffixIsShorter(rs, h + 1);
    }
  }

  /** At most one live frame per overwrite key, each the newest accepted one for its key;
      the records never fill the ring; and a frame handed out was accepted and is the newest for its key. */
  lemma ApplyInv(s: Session, op: Op)
    requires SessionInv(s)
    ensures SessionInv(Apply(s, op))
    ensures Apply(s, op).last.NextFrame? ==> IsLatest(s.log, Apply(s, op).last.frame)
  {
    match op
    case AppendOp(f) =>
      AppendStaysInRing(s.rs, f);
      var e := AppendRefinesList(s.rs, f);
      match e {
        case Ignored =>
        case ReplacedAt(i) => ReplacedStaysLatest(s.log, Live(s.rs), f, i);
        case AppendedAfterDropping(n) => AppendedStaysLatest(s.log, Live(s.rs), f, n);
      }
    case NextOp =>
      NextStaysInRing(s.rs, s.count);
      var i := GetNextRefinesList(s.rs, s.count);
      if Live(s.rs) != [] {
        DroppingOneStaysDistinct(s.log, Live(s.rs), i);
      }
  }

  function Run(s: Session, ops: seq<Op>): (z: Session)
    requires SessionInv(s)
    ensures SessionInv(z)
    decreases |ops|
  {
    if ops == [] then s
    else
      ApplyInv(s, ops[0]);
      Run(Apply(s, ops[0]), ops[1..])
  }

  function EmptySession(): (s: Session)
    ensures SessionInv(s)
  {
    Session([], 0, [], NoFrame)
  }

  /** From the empty queue, in every run. */
  lemma RunsKeepLatest(ops: seq<Op>)
    ensures var z := Run(EmptySession(), ops);
            && DistinctKeys(Live(z.rs)) && AllLatest(z.log, Live(z.rs))
            && |Encode(z.rs)| < FIFO_SIZE
  {
  }

  // ----- priority -----

  function PrioritisedIn(fs: seq<Frame>): nat {
    if fs == [] then 0 else (if IsPrioritised(fs[0][2]) then 1 else 0) + PrioritisedIn(fs[1..])
  }

  lemma {:induction false} PrioritisedConcat(xs: seq<Frame>, ys: seq<Frame>)
    ensures PrioritisedIn(xs + ys) == PrioritisedIn(xs) + PrioritisedIn(ys)
  {
    if xs == [] {
      assert xs + ys == ys;
    } else {
      PrioritisedConcat(xs[1..], ys);
      assert (xs + ys)[1..] == xs[1..] + ys;
    }
  }

  lemma {:induction false} PrioritisedPresent(fs: seq<Frame>)
    ensures PrioritisedIn(fs) > 0 <==> AnyPrioritised(fs)
  {
    if fs == [] {
    } else {
      PrioritisedPresent(fs[1..]);
      if AnyPrioritised(fs[1..]) {
        var i :| 0 <= i < |fs[1..]| && IsPrioritised(fs[1..][i][2]);
        assert IsPrioritised(fs[i + 1][2]);
      }
      if i :| 0 < i < |fs| && IsPrioritised(fs[i][2]) {
        assert IsPrioritised(fs[1..][i - 1][2]);
      }
    }
  }

  lemma PrioritisedSplit(fs: seq<Frame>, i: nat)
    requires i < |fs|
    ensures PrioritisedIn(fs[..i] + fs[i + 1..]) == PrioritisedIn(fs) - (if IsPrioritised(fs[i][2]) then 1 else 0)
    ensures forall f: Frame :: IsPrioritised(f[2]) == IsPrioritised(fs[i][2]) ==>
        PrioritisedIn(fs[i := f]) == PrioritisedIn(fs)
  {
    PrioritisedConcat(fs[..i], fs[i + 1..]);
    PrioritisedConcat(fs[..i], fs[i..]);
    assert fs == fs[..i] + fs[i..];
    forall f: Frame | IsPrioritised(f[2]) == IsPrioritised(fs[i][2])
      ensures PrioritisedIn(fs[i := f]) == PrioritisedIn(fs)
    {
      UpdateSplits(fs, i, f);
      PrioritisedConcat(fs[..i] + [f], fs[i + 1..]);
      PrioritisedConcat(fs[..i], [f]);
    }
  }

  lemma {:induction false} WithoutKeyNotMorePrioritised(fs: seq<Frame>, f: Frame)
    ensures PrioritisedIn(WithoutKey(fs, f)) <= PrioritisedIn(fs)
  {
    if fs != [] && KeyOf(f) != NoKey && KeyOf(fs[0]) != KeyOf(f) {
      WithoutKeyNotMorePrioritised(fs[1..], f);
    }
  }

  lemma AppendedPrioritised(fs: seq<Frame>, f: Frame, n: nat)
    requires n <= |WithoutKey(fs, f)|
    ensures PrioritisedIn(WithoutKey(fs, f)[n..] + [f]) <= PrioritisedIn(fs) + (if IsPrioritised(f[2]) then 1 else 0)
  {
    WithoutKeyNotMorePrioritised(fs, f);
    var ws := WithoutKey(fs, f);
    PrioritisedConcat(ws[..n], ws[n..]);
    assert ws == ws[..n] + ws[n..];
    PrioritisedConcat(ws[n..], [f]);
  }

  /** An effect that fits the list: what `AppendRefinesList` yields. */
  predicate Fitting(fs: seq<Frame>, f: Frame, e: Effect) {
    match e
    case Ignored => true
    case ReplacedAt(i) => i < |fs| && KeyOf(fs[i]) == KeyOf(f) != NoKey
    case AppendedAfterDropping(n) => n <= |WithoutKey(fs, f)|
  }

  lemma EffectPrioritised(fs: seq<Frame>, f: Frame, e: Effect)
    requires Fitting(fs, f, e)
    ensures PrioritisedIn(ApplyEffect(fs, f, e))
         <= PrioritisedIn(fs) + (if !e.Ignored? && IsPrioritised(f[2]) then 1 else 0)
  {
    match e {
      case Ignored =>
      case ReplacedAt(i) => PrioritisedSplit(fs, i);
      case AppendedAfterDropping(n) => AppendedPrioritised(fs, f, n);
    }
  }

  lemma AppendCountCovers(rs: seq<Record>, count: uint8, f: Frame)
    requires Good(rs) && PrioritisedIn(Live(rs)) <= count
    requires IsPrioritised(f[2]) && !Discarded(f) ==> count < 255
    ensures Good(Append(rs, f)) && PrioritisedIn(Live(Append(rs, f))) <= CountAfterAppend(count, f)
  {
    var e := AppendRefinesList(rs, f);
    EffectPrioritised(Live(rs), f, e);
    EffectCountCovers(Live(rs), count, f, e);
  }

  lemma EffectCountCovers(fs: seq<Frame>, count: uint8, f: Frame, e: Effect)
    requires PrioritisedIn(fs) <= count && (IsPrioritised(f[2]) && !Discarded(f) ==> count < 255)
        && (e.Ignored? <==> Discarded(f))
    requires PrioritisedIn(ApplyEffect(fs, f, e))
        <= PrioritisedIn(fs) + (if !e.Ignored? && IsPrioritised(f[2]) then 1 else 0)
    ensures PrioritisedIn(ApplyEffect(fs, f, e)) <= CountAfterAppend(count, f)
  {
  }

  lemma NextCountCovers(rs: seq<Record>, count: uint8)
    requires Good(rs) && PrioritisedIn(Live(rs)) <= count
    ensures Good(GetNext(rs, count).0) && PrioritisedIn(Live(GetNext(rs, count).0)) <= GetNext(rs, count).1
  {
    var i := GetNextRefinesList(rs, count);
    PrioritisedPresent(Live(rs));
    FirstPrioritisedLive(rs, FindPrioritised(rs));
    assert rs[..|rs|] == rs;
    if Live(rs) != [] {
      PrioritisedSplit(Live(rs), i);
    }
  }

  /** One call never lets the priority count fall below the number of prioritised frames
      queued, as long as the count does not wrap. */
  lemma CountCoversPrioritised(s: Session, op: Op)
    requires SessionInv(s) && PrioritisedIn(Live(s.rs)) <= s.count
    requires op.AppendOp? && IsPrioritised(op.frame[2]) && !Discarded(op.frame) ==> s.count < 255
    ensures var z := Apply(s, op); Good(z.rs) && PrioritisedIn(Live(z.rs)) <= z.count
  {
    match op
    case AppendOp(f) => AppendCountCovers(s.rs, s.count, f);
    case NextOp => NextCountCovers(s.rs, s.count);
  }

  /** Then a prioritised frame is always served before the others, oldest first. */
  lemma PrioritisedServedFirst(s: Session)
    requires SessionInv(s) && PrioritisedIn(Live(s.rs)) <= s.count && AnyPrioritised(Live(s.rs))
    ensures var next := Apply(s, NextOp).last;
            next.NextFrame? && exists i: nat :: FirstPrioritisedAt(Live(s.rs), i) && Live(s.rs)[i] == next.frame
  {
    PrioritisedPresent(Live(s.rs));
    var i := GetNextRefinesList(s.rs, s.count);
    assert Live(s.rs)[i] == Apply(s, NextOp).last.frame;
  }

  // ----- priority over whole runs -----

  predicate CountsPrioritised(op: Op) {
    op.AppendOp? && !Discarded(op.frame) && IsPrioritised(op.frame[2])
  }

  /** Prioritised frames accepted since the count was last zero, this call included. */
  function Tally(s: Session, tally: nat, op: Op): nat
    requires Good(s.rs)
  {
    if Apply(s, op).count == 0 then 0 else if CountsPrioritised(op) then tally + 1 else tally
  }

  /** Never 256 prioritised frames accepted since the count was last zero. */
  predicate FewPrioritised(s: Session, ops: seq<Op>, tally: nat)
    requires SessionInv(s)
    decreases |ops|
  {
    || ops == []
    || (ApplyInv(s, ops[0]);
        (CountsPrioritised(ops[0]) ==> tally + 1 < 256)
        && FewPrioritised(Apply(s, ops[0]), ops[1..], Tally(s, tally, ops[0])))
  }

  predicate Covered(s: Session)
    requires Good(s.rs)
  {
    PrioritisedIn(Live(s.rs)) <= s.count
  }

  lemma CountWithinTally(s: Session, op: Op, tally: nat)
    requires SessionInv(s) && s.count <= tally && (CountsPrioritised(op) ==> tally + 1 < 256)
    ensures Apply(s, op).count <= Tally(s, tally, op)
  {
  }

  lemma {:induction false} RunCovers(s: Session, ops: seq<Op>, tally: nat)
    requires SessionInv(s) && Covered(s) && s.count <= tally && FewPrioritised(s, ops, tally)
    ensures Covered(Run(s, ops))
    decreases |ops|
  {
    if ops == [] {
    } else {
      ApplyInv(s, ops[0]);
      CountCoversPrioritised(s, ops[0]);
      CountWithinTally(s, ops[0], tally);
      RunCovers(Apply(s, ops[0]), ops[1..], Tally(s, tally, ops[0]));
    }
  }

  /** In every run from the empty queue that never accepts 256 prioritised frames while the
      count stays above zero, the count covers the prioritised frames queued, and the
      oldest of them is handed out before any other frame. */
  lemma PrioritisedFirstInEveryRun(ops: seq<Op>)
    requires FewPrioritised(EmptySession(), ops, 0)
    ensures var z := Run(EmptySession(), ops);
            && Covered(z)
            && (AnyPrioritised(Live(z.rs)) ==>
                  var next := Apply(z, NextOp).last;
                  next.NextFrame? && exists i: nat :: FirstPrioritisedAt(Live(z.rs), i) && Live(z.rs)[i] == next.frame)
  {
    RunCovers(EmptySession(), ops, 0);
    var z := Run(EmptySession(), ops);
    if AnyPrioritised(Live(z.rs)) {
      PrioritisedServedFirst(z);
    }
  }

  // ----- what the count forgets ---------------------------------------------------

  /** Why 256 are too many: the count wraps to zero, and the next frame handed out is then
      the oldest, prioritised or not. */
  lemma WrappedCountForgets(rs: seq<Record>, f: Frame)
    requires Good(rs) && !Discarded(f) && IsPrioritised(f[2])
    ensures CountAfterAppend(255, f) == 0 && HandsOutOldest(Append(rs, f), 0)
  {
    AppendLeavesSome(rs, f);
    NoCountMeansOldest(Append(rs, f));
  }

  predicate HandsOutOldest(rs: seq<Record>, count: uint8) {
    Good(rs) && Live(rs) != [] && GetNext(rs, count).2 == NextFrame(Live(rs)[0])
  }

  lemma AppendLeavesSome(rs: seq<Record>, f: Frame)
    requires Good(rs) && !Discarded(f)
    ensures Good(Append(rs, f)) && Live(Append(rs, f)) != []
  {
    var e := AppendRefinesList(rs, f);
  }

  lemma NoCountMeansOldest(rs: seq<Record>)
    requires Good(rs) && Live(rs) != []
    ensures HandsOutOldest(rs, 0)
  {
    var i := GetNextRefinesList(rs, 0);
  }

  /** The parameter protocol goes first: pings, device information, and parameters read,
      written and announced; broadcast telemetry and commands do not. */
  lemma ParameterFramesGoFirst(frameType: uint8)
    ensures IsPrioritised(frameType) <==> frameType in {0x28, 0x29, 0x2A, 0x2B, 0x2C, 0x2D}
    ensures IsPrioritised(DEVICE_PING) && IsPrioritised(DEVICE_INFO) && IsPrioritised(PARAMETER_SETTINGS_ENTRY)
    ensures !IsPrioritised(COMMAND) && (frameType < DEVICE_PING ==> !IsPrioritised(frameType))
  {
  }

  /** Coming away empty-handed means that the ring is empty, deleted records included; and
      without priorities everything up to the frame handed out is freed. */
  lemma HeadIsFreed(rs: seq<Record>, count: uint8)
    requires Good(rs)
    ensures var (rs', count', next) := GetNext(rs, count);
            && (next.NoFrame? ==> rs' == [] && count' == 0)
            && (count == 0 && next.NextFrame? ==>
                  exists h: nat :: h < |rs| && rs' == rs[h + 1..] && !rs[h].deleted
                                   && forall j :: 0 <= j < h ==> rs[j].deleted)
  {
    var h := FindLive(rs);
    assert h < |rs| ==> !rs[h].deleted;
  }
}
