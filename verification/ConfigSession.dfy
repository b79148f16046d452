/** The configuration session of a unit (unified_config.c): the commands, the stored mode,
    and the phases from discovery to the session. Flash operations may fail in any way:
    what the record area holds afterwards is part of each outcome. */
module ConfigSession {
  import opened Bytes
  import opened ConfigFilter
  import opened ConfigFrames
  import opened ConfigRecord
  import opened Widths

  const SESSION_MS: uint32 := 60000
  const SWITCH_DELAY_MS: uint32 := 30
  const REBOOT_DELAY_MS: uint32 := 50

  datatype Timers = Timers(sessionDeadline: uint32, switchAt: uint32, rebootAt: uint32, rebootPending: bool)

  datatype Unit = Unit(
    store: Store, filter: Filter, phase: Phase, challenge: uint32, timers: Timers,
    discoveryEnabled: bool, bootProbeActive: bool, loggingEnabled: bool, version: seq<uint8>, buildId: seq<uint8>)

  /** `copy_string`: at most `capacity` bytes, up to the terminator. */
  function CopyString(s: seq<uint8>, capacity: nat): (r: seq<uint8>)
    ensures |r| <= capacity && r <= s && forall i :: 0 <= i < |r| ==> r[i] != 0
    ensures |r| == capacity || r == s || s[|r|] == 0
    decreases |s|
  {
    if capacity == 0 || s == [] || s[0] == 0 then []
    else
      var rest := CopyString(s[1..], capacity - 1);
      assert s == [s[0]] + s[1..];
      [s[0]] + rest
  }

  function Flag(b: bool): uint8 { if b then 1 else 0 }

  /** The answer to GET_INFO always fits: the build string gets what the version leaves. */
  function InfoPayload(s: Store, version: seq<uint8>, buildId: seq<uint8>): (p: seq<uint8>)
    ensures |p| <= MAX_PAYLOAD
  {
    var v := CopyString(version, MAX_PAYLOAD - 6);
    var b := CopyString(buildId, MAX_PAYLOAD - (5 + |v|) - 1);
    [s.role, s.mode, Flag(s.recordValid), PROTOCOL_VERSION, |v|] + v + [|b|] + b
  }

  function ConfigPayload(s: Store): (p: seq<uint8>)
    ensures |p| == 8
  {
    [Flag(s.recordValid), s.role, s.mode, RECORD_VERSION] + Le32(s.baud)
  }

  function StatePayload(code: uint8, s: Store): (p: seq<uint8>)
    ensures |p| == 7
  {
    [code, s.mode, Flag(s.recordValid)] + Le32(s.baud)
  }

  /** `handle_session_frame`: the new state and the answer. `sendOk` is what the UART says. */
  function HandleCommand(crc: Checksum, u: Unit, f: Frame, now: uint32, sendOk: bool, o: FlashOutcome):
      (r: (Unit, Frame))
    requires f.Fits()
    ensures r.1.Fits()
  {
    var timers := u.timers.(sessionDeadline := Wrap32(now + SESSION_MS));
    if f.command == CMD_GET_INFO then
      (u.(timers := timers), f.(payload := InfoPayload(u.store, u.version, u.buildId)))
    else if f.command == CMD_GET_CONFIG then
      (u.(timers := timers), f.(payload := ConfigPayload(u.store)))
    else if f.command == CMD_SET_MODE then
      var (store, code) := SetMode(crc, u.store, f.payload, o);
      (u.(timers := timers, store := store), f.(payload := StatePayload(code, store)))
    else if f.command == CMD_REBOOT then
      (u.(timers := if sendOk then timers.(rebootAt := Wrap32(now + REBOOT_DELAY_MS), rebootPending := true)
          else timers),
       f.(payload := [0]))
    else
      (u.(timers := timers), f.(command := CMD_ERROR, payload := [f.command]))
  }

  function LoggingIsEnabled(u: Unit): bool {
    u.loggingEnabled && u.store.mode == MODE_RC && u.phase.Discovery?
  }

  /** The HELLO branch of `UnifiedConfig_Update`. */
  function AnswerHello(u: Unit, f: Frame, now: uint32, sendOk: bool): (r: (Unit, Frame))
    requires f.Fits()
    ensures r.1.Fits()
  {
    var ack := Frame.Frame(CMD_HELLO_ACK, f.sequence, f.challenge,
                           [u.store.role, u.store.mode, Flag(u.store.recordValid), PROTOCOL_VERSION]);
    if !sendOk then
      (u.(loggingEnabled := LoggingIsEnabled(u) && !u.bootProbeActive), ack)
    else if u.bootProbeActive then
      (u.(challenge := f.challenge, loggingEnabled := false, phase := Session,
          timers := u.timers.(sessionDeadline := Wrap32(now + SESSION_MS))), ack)
    else
      (u.(challenge := f.challenge, loggingEnabled := false, phase := SwitchPending,
          timers := u.timers.(switchAt := Wrap32(now + SWITCH_DELAY_MS))), ack)
  }

  /** What became of the frame in the mailbox. */
  datatype Effect =
    | Idle
    | Ignored
    | Greeted(frame: seq<uint8>, answer: Frame, accepted: bool)
    | Handled(frame: seq<uint8>, answer: Frame)

  function TakeFrame(crc: Checksum, u: Unit, now: uint32, sendOk: bool, o: FlashOutcome): (r: (Unit, Effect))
    requires Inv(crc, u.filter)
  {
    match u.filter.pending
    case NoFrame => (u, Idle)
    case Captured(bytes) =>
      var f := FrameOf(crc, bytes);
      var v := u.(filter := u.filter.(pending := NoFrame));
      if v.phase.Discovery? && f.command == CMD_HELLO then
        var (w, ack) := AnswerHello(v, f, now, sendOk);
        (w, Greeted(bytes, ack, sendOk))
      else if v.phase.Session? && f.challenge == v.challenge then
        var (w, answer) := HandleCommand(crc, v, f, now, sendOk, o);
        (w, Handled(bytes, answer))
      else
        (v, Ignored)
  }

  function SwitchIfDue(u: Unit, now: uint32): (u': Unit) {
    if u.phase.SwitchPending? && Reached(now, u.timers.switchAt) then
      u.(filter := u.filter.(held := [], expected := 0), phase := Session,
         timers := u.timers.(sessionDeadline := Wrap32(now + SESSION_MS)))
    else u
  }

  predicate SessionExpired(u: Unit, now: uint32) { u.phase.Session? && Reached(now, u.timers.sessionDeadline) }

  predicate RebootDue(u: Unit, now: uint32) { u.timers.rebootPending && Reached(now, u.timers.rebootAt) }

  /** The timers at the end of `UnifiedConfig_Update`, and how often a reboot is requested. */
  function RunTimers(u: Unit, now: uint32): (r: (Unit, nat)) {
    var v := SwitchIfDue(u, now);
    (if RebootDue(v, now) then v.(timers := v.timers.(rebootPending := false)) else v,
     (if SessionExpired(v, now) then 1 else 0) + (if RebootDue(v, now) then 1 else 0))
  }

  function Update(crc: Checksum, u: Unit, now: uint32, sendOk: bool, o: FlashOutcome): (r: (Unit, Effect))
    requires Inv(crc, u.filter)
  {
    var (v, effect) := TakeFrame(crc, u, now, sendOk, o);
    (RunTimers(v, now).0, effect)
  }

  function FilterBytes(crc: Checksum, u: Unit, data: seq<uint8>): (r: (Unit, seq<Item>))
    requires Inv(crc, u.filter)
  {
    if u.phase.Discovery? && !u.discoveryEnabled then (u, AsBytes(data))
    else
      var (f, items) := FilterAll(crc, u.filter, u.phase, data);
      (u.(filter := f), items)
  }

  function Init(crc: Checksum, flash: seq<uint8>, role: uint8, version: seq<uint8>, buildId: seq<uint8>,
      readOk: bool): (u: Unit)
    requires |flash| == RECORD_SIZE
  {
    var store := LoadRecord(crc, Store(role, MODE_RC, DEFAULT_BAUD, false, flash), readOk);
    Unit(store, Filter([], 0, NoFrame), Discovery, 0, Timers(0, 0, 0, false), false, false, false, version, buildId)
  }

  function StartBootProbe(u: Unit): Unit { u.(bootProbeActive := true, discoveryEnabled := true) }

  function EndBootProbe(u: Unit): Unit {
    u.(bootProbeActive := false, discoveryEnabled := false, filter := u.filter.(held := [], expected := 0))
  }

  // ----- One step -----------------------------------------------------------------

  datatype Event =
    | Bytes(data: seq<uint8>)
    | Tick(now: uint32, sendOk: bool, outcome: FlashOutcome)
    | ProbeStarts
    | ProbeEnds
    | LoggingSet(enabled: bool)
  {
    predicate Sane() { Tick? ==> outcome.Sane() }
  }

  predicate UnitInv(crc: Checksum, u: Unit) {
    && StoreInv(crc, u.store)
    && Inv(crc, u.filter)
    && (u.phase.Discovery? && !u.discoveryEnabled ==> u.filter.held == [])
  }

  function Step(crc: Checksum, u: Unit, e: Event): (r: (Unit, Effect))
    requires Inv(crc, u.filter)
  {
    match e
    case Bytes(data) => (FilterBytes(crc, u, data).0, Idle)
    case Tick(now, sendOk, o) => Update(crc, u, now, sendOk, o)
    case ProbeStarts => (StartBootProbe(u), Idle)
    case ProbeEnds => (EndBootProbe(u), Idle)
    case LoggingSet(enabled) => (u.(loggingEnabled := enabled), Idle)
  }

  lemma InitInv(crc: Checksum, flash: seq<uint8>, role: uint8, version: seq<uint8>, buildId: seq<uint8>, readOk: bool)
    requires |flash| == RECORD_SIZE
    ensures UnitInv(crc, Init(crc, flash, role, version, buildId, readOk))
  {
    LoadRecordInv(crc, Store(role, MODE_RC, DEFAULT_BAUD, false, flash), readOk);
  }

  /** What every command keeps. */
  lemma HandleCommandKeeps(crc: Checksum, u: Unit, f: Frame, now: uint32, sendOk: bool, o: FlashOutcome)
    requires StoreInv(crc, u.store) && f.Fits() && o.Sane()
    ensures var (u', answer) := HandleCommand(crc, u, f, now, sendOk, o);
            && StoreInv(crc, u'.store)
            && u' == u.(timers := u'.timers, store := u'.store)
            && u'.store == (if f.command == CMD_SET_MODE then SetMode(crc, u.store, f.payload, o).0 else u.store)
            && answer.challenge == f.challenge && answer.sequence == f.sequence
  {
    SetModeInv(crc, u.store, f.payload, o);
  }

  lemma TakeFrameInv(crc: Checksum, u: Unit, now: uint32, sendOk: bool, o: FlashOutcome)
    requires UnitInv(crc, u) && o.Sane()
    ensures UnitInv(crc, TakeFrame(crc, u, now, sendOk, o).0)
  {
    if u.filter.pending.Captured? {
      var f := FrameOf(crc, u.filter.pending.frame);
      HandleCommandKeeps(crc, u.(filter := u.filter.(pending := NoFrame)), f, now, sendOk, o);
    }
  }

  lemma RunTimersInv(crc: Checksum, u: Unit, now: uint32)
    requires UnitInv(crc, u)
    ensures UnitInv(crc, RunTimers(u, now).0)
  {
  }

  lemma StepInv(crc: Checksum, u: Unit, e: Event)
    requires UnitInv(crc, u) && e.Sane()
    ensures UnitInv(crc, Step(crc, u, e).0)
  {
    if e.Tick? {
      TakeFrameInv(crc, u, e.now, e.sendOk, e.outcome);
      RunTimersInv(crc, TakeFrame(crc, u, e.now, e.sendOk, e.outcome).0, e.now);
    }
  }

  // ----- Runs ---------------------------------------------------------------------

  function Run(crc: Checksum, u: Unit, es: seq<Event>): (r: (Unit, seq<Effect>))
    requires UnitInv(crc, u) && forall i :: 0 <= i < |es| ==> es[i].Sane()
    ensures UnitInv(crc, r.0) && |r.1| == |es|
    decreases |es|
  {
    if es == [] then (u, [])
    else
      var (v, effects) := Run(crc, u, es[..|es| - 1]);
      StepInv(crc, v, es[|es| - 1]);
      var (w, effect) := Step(crc, v, es[|es| - 1]);
      (w, effects + [effect])
  }

  predicate Opens(e: Effect) { e.Greeted? && e.accepted }

  /** A valid frame with this challenge. */
  predicate Carries(crc: Checksum, frame: seq<uint8>, challenge: uint32) {
    FrameIsValid(crc, frame) && FrameOf(crc, frame).challenge == challenge
  }

  predicate IsHello(crc: Checksum, frame: seq<uint8>) {
    FrameIsValid(crc, frame) && FrameOf(crc, frame).command == CMD_HELLO
  }

  /** The `k`-th effect opened the session: no other did, and every command obeyed came
      later, in a valid frame with the challenge of that HELLO. */
  predicate OpenedBy(crc: Checksum, effects: seq<Effect>, k: int, challenge: uint32) {
    && 0 <= k < |effects| && Opens(effects[k])
    && IsHello(crc, effects[k].frame) && Carries(crc, effects[k].frame, challenge)
    && forall i :: 0 <= i < |effects| && i != k ==>
         && !Opens(effects[i])
         && (effects[i].Handled? ==> k < i && Carries(crc, effects[i].frame, challenge))
  }

  ghost predicate SessionInv(crc: Checksum, u: Unit, effects: seq<Effect>) {
    && (u.phase.Discovery? ==> forall i :: 0 <= i < |effects| ==> !Opens(effects[i]) && !effects[i].Handled?)
    && (!u.phase.Discovery? ==> exists k :: OpenedBy(crc, effects, k, u.challenge))
  }

  /** What taking a frame may do to the phase and the challenge. */
  lemma TakeFramePhase(crc: Checksum, u: Unit, now: uint32, sendOk: bool, o: FlashOutcome)
    requires UnitInv(crc, u) && o.Sane()
    ensures var (v, effect) := TakeFrame(crc, u, now, sendOk, o);
            && (Opens(effect) ==> u.phase.Discovery? && !v.phase.Discovery?
                                  && IsHello(crc, effect.frame) && Carries(crc, effect.frame, v.challenge))
            && (!Opens(effect) ==> v.phase == u.phase && v.challenge == u.challenge)
            && (effect.Handled? ==> u.phase.Session? && Carries(crc, effect.frame, u.challenge))
  {
    if u.filter.pending.Captured? {
      var f := FrameOf(crc, u.filter.pending.frame);
      HandleCommandKeeps(crc, u.(filter := u.filter.(pending := NoFrame)), f, now, sendOk, o);
    }
  }

  /** What one step may do to the phase and the challenge. */
  lemma StepPhase(crc: Checksum, u: Unit, e: Event)
    requires UnitInv(crc, u) && e.Sane()
    ensures var (v, effect) := Step(crc, u, e);
            && (Opens(effect) ==> u.phase.Discovery? && !v.phase.Discovery?
                                  && IsHello(crc, effect.frame) && Carries(crc, effect.frame, v.challenge))
            && (!Opens(effect) ==> v.challenge == u.challenge && (v.phase.Discovery? <==> u.phase.Discovery?))
            && (effect.Handled? ==> u.phase.Session? && Carries(crc, effect.frame, u.challenge))
  {
    if e.Tick? {
      TakeFramePhase(crc, u, e.now, e.sendOk, e.outcome);
    }
  }

  lemma SessionStep(crc: Checksum, u: Unit, effects: seq<Effect>, e: Event)
    requires UnitInv(crc, u) && e.Sane() && SessionInv(crc, u, effects)
    ensures var (v, effect) := Step(crc, u, e); SessionInv(crc, v, effects + [effect])
  {
    var (v, effect) := Step(crc, u, e);
    StepPhase(crc, u, e);
    if Opens(effect) {
      assert OpenedBy(crc, effects + [effect], |effects|, v.challenge);
    } else if !u.phase.Discovery? {
      var k :| OpenedBy(crc, effects, k, u.challenge);
      assert OpenedBy(crc, effects + [effect], k, v.challenge);
    }
  }

  /** From power-up, in every run: the store agrees with the flash whenever it claims a
      valid record; commands are obeyed only in a session, which one HELLO opened, and
      only from valid frames that carry its challenge. */
  lemma {:induction false} SessionsAreSafe(crc: Checksum, u: Unit, es: seq<Event>)
    requires UnitInv(crc, u) && u.phase.Discovery? && forall i :: 0 <= i < |es| ==> es[i].Sane()
    ensures var (v, effects) := Run(crc, u, es); StoreInv(crc, v.store) && SessionInv(crc, v, effects)
    decreases |es|
  {
    if es == [] {
    } else {
      var n := |es| - 1;
      SessionsAreSafe(crc, u, es[..n]);
      var (v, effects) := Run(crc, u, es[..n]);
      SessionStep(crc, v, effects, es[n]);
    }
  }

  /** Discovery, once left, is never entered again. */
  lemma {:induction false} NeverBackToDiscovery(crc: Checksum, u: Unit, es: seq<Event>)
    requires UnitInv(crc, u) && !u.phase.Discovery? && forall i :: 0 <= i < |es| ==> es[i].Sane()
    ensures !Run(crc, u, es).0.phase.Discovery?
    decreases |es|
  {
    if es == [] {
    } else {
      var n := |es| - 1;
      NeverBackToDiscovery(crc, u, es[..n]);
      StepPhase(crc, Run(crc, u, es[..n]).0, es[n]);
    }
  }

  predicate SetsMode(crc: Checksum, e: Effect) {
    e.Handled? && FrameIsValid(crc, e.frame) && FrameOf(crc, e.frame).command == CMD_SET_MODE
  }

  lemma TakeFrameKeepsStore(crc: Checksum, u: Unit, now: uint32, sendOk: bool, o: FlashOutcome)
    requires UnitInv(crc, u) && o.Sane() && !SetsMode(crc, TakeFrame(crc, u, now, sendOk, o).1)
    ensures TakeFrame(crc, u, now, sendOk, o).0.store == u.store
  {
    if u.filter.pending.Captured? {
      var f := FrameOf(crc, u.filter.pending.frame);
      HandleCommandKeeps(crc, u.(filter := u.filter.(pending := NoFrame)), f, now, sendOk, o);
    }
  }

  lemma StepKeepsStore(crc: Checksum, u: Unit, e: Event)
    requires UnitInv(crc, u) && e.Sane() && !SetsMode(crc, Step(crc, u, e).1)
    ensures Step(crc, u, e).0.store == u.store
  {
    if e.Tick? {
      TakeFrameKeepsStore(crc, u, e.now, e.sendOk, e.outcome);
    }
  }

  lemma {:induction false} RunKeepsStore(crc: Checksum, u: Unit, es: seq<Event>)
    requires UnitInv(crc, u) && forall i :: 0 <= i < |es| ==> es[i].Sane()
    requires forall i :: 0 <= i < |es| ==> !SetsMode(crc, Run(crc, u, es).1[i])
    ensures Run(crc, u, es).0.store == u.store
    decreases |es|
  {
    if es == [] {
    } else {
      var n := |es| - 1;
      var (v, effects) := Run(crc, u, es[..n]);
      var all := Run(crc, u, es).1;
      assert forall i :: 0 <= i < n ==> effects[i] == all[i];
      RunKeepsStore(crc, u, es[..n]);
      assert all[n] == Step(crc, v, es[n]).1;
      StepKeepsStore(crc, v, es[n]);
    }
  }

  lemma AnswerOfSetMode(crc: Checksum, u: Unit, e: Event)
    requires UnitInv(crc, u) && e.Sane() && SetsMode(crc, Step(crc, u, e).1)
    ensures var (v, effect) := Step(crc, u, e);
            var (store, code) := SetMode(crc, u.store, FrameOf(crc, effect.frame).payload, e.outcome);
            v.store == store && effect.answer.payload == StatePayload(code, store)
  {
  }

  /** A SET_MODE that was answered 0 survives: after any further events that set no other
      mode, a restart whose flash read works comes up in the mode and baud asked for. */
  lemma AnsweredModeSurvives(crc: Checksum, u: Unit, e: Event, es: seq<Event>,
                             version: seq<uint8>, buildId: seq<uint8>)
    requires UnitInv(crc, u) && e.Sane() && UnitInv(crc, Step(crc, u, e).0)
    requires SetsMode(crc, Step(crc, u, e).1) && [0] <= Step(crc, u, e).1.answer.payload
    requires forall i :: 0 <= i < |es| ==> es[i].Sane()
    requires forall i :: 0 <= i < |es| ==> !SetsMode(crc, Run(crc, Step(crc, u, e).0, es).1[i])
    ensures var payload := FrameOf(crc, Step(crc, u, e).1.frame).payload;
            var v := Run(crc, Step(crc, u, e).0, es).0;
            var restarted := Init(crc, v.store.flash, u.store.role, version, buildId, true).store;
            && |payload| == 5 && restarted.recordValid
            && restarted.mode == payload[0] && restarted.baud == Read32(payload, 1)
  {
    var (v, effect) := Step(crc, u, e);
    var payload := FrameOf(crc, effect.frame).payload;
    AnswerOfSetMode(crc, u, e);
    var (store, code) := SetMode(crc, u.store, payload, e.outcome);
    assert StatePayload(code, store)[0] == code;
    AnsweredConfigIsLoaded(crc, u.store, payload, e.outcome);
    SetModeInv(crc, u.store, payload, e.outcome);
    RunKeepsStore(crc, v, es);
  }

  /** Every command renews the lease: the session expires 60 s after the last one, told
      correctly across the wrap of the clock within half its range. */
  lemma CommandsRenewTheSession(crc: Checksum, u: Unit, f: Frame, t: nat, later: nat, sendOk: bool, o: FlashOutcome)
    requires u.phase.Session? && f.Fits() && t <= later < t + 0x8000_0000
    ensures SessionExpired(HandleCommand(crc, u, f, Wrap32(t), sendOk, o).0, Wrap32(later))
       <==> later >= t + SESSION_MS
  {
    WrapSum(t, SESSION_MS);
    ReachedMeansPast(later, t + SESSION_MS, 0);
  }

  // ----- The filter inside the unit -----------------------------------------------

  /** Inside the unit, too, one call of FilterBytes loses nothing: with discovery switched
      off the bytes go straight through, and then nothing is held back. */
  lemma UnitFilterIsTransparent(crc: Checksum, u: Unit, data: seq<uint8>)
    requires UnitInv(crc, u)
    ensures var (v, items) := FilterBytes(crc, u, data);
            Flatten(items) + v.filter.held == u.filter.held + data
    ensures u.phase.Discovery? && !u.discoveryEnabled ==> FilterBytes(crc, u, data) == (u, AsBytes(data))
  {
    FilterAllTransparent(crc, u.filter, u.phase, data);
    FlattenBytes(data);
    assert data + [] == [] + data;
  }
}
