/** The host tool and the unit talking to each other: what the tool decodes from the answers
    (decode_info, decode_config), and that a configuration goes through (configure_one). */
module ConfigDialogue {
  import opened Bytes
  import opened ConfigFilter
  import opened ConfigFrames
  import opened ConfigRecord
  import opened ConfigSession
  import opened Widths

  // ----- what the tool reads in an answer -----------------------------------------

  datatype DeviceInfo = DeviceInfo(
    role: uint8, mode: uint8, valid: bool, protocol: uint8, version: seq<uint8>, buildId: seq<uint8>)

  datatype InfoResult = InfoError | Info(info: DeviceInfo)

  /** `decode_info` */
  function DecodeInfo(p: seq<uint8>): (r: InfoResult) {
    if |p| < 6 then InfoError
    else
      var n: int := p[4];
      if 5 + n + 1 > |p| then InfoError
      else
        var k: int := p[5 + n];
        if 6 + n + k > |p| then InfoError
        else Info(DeviceInfo(p[0], p[1], p[2] != 0, p[3], p[5..5 + n], p[6 + n..6 + n + k]))
  }

  datatype ConfigResult = ConfigError | Config(mode: uint8, baud: uint32)

  /** `decode_config` */
  function DecodeConfig(p: seq<uint8>): (r: ConfigResult) {
    if |p| != 8 then ConfigError
    else if p[2] != MODE_RC && p[2] != MODE_AIRPORT then ConfigError
    else if Read32(p, 4) !in OfferedBauds() then ConfigError
    else Config(p[2], Read32(p, 4))
  }

  function InfoBytes(h: seq<uint8>, v: seq<uint8>, b: seq<uint8>): seq<uint8>
    requires |v| <= 0xFF && |b| <= 0xFF
  {
    h + [|v|] + v + [|b|] + b
  }

  lemma InfoFields(h: seq<uint8>, v: seq<uint8>, b: seq<uint8>)
    requires |h| == 4 && |v| <= 0xFF && |b| <= 0xFF
    ensures var p := InfoBytes(h, v, b);
            && |p| == 6 + |v| + |b|
            && p[0] == h[0] && p[1] == h[1] && p[2] == h[2] && p[3] == h[3] && p[4] == |v|
            && p[5..5 + |v|] == v && p[5 + |v|] == |b| && p[6 + |v|..6 + |v| + |b|] == b
  {
  }

  lemma DecodesFields(h: seq<uint8>, v: seq<uint8>, b: seq<uint8>)
    requires |h| == 4 && |v| <= 0xFF && |b| <= 0xFF
    ensures DecodeInfo(InfoBytes(h, v, b)) == Info(DeviceInfo(h[0], h[1], h[2] != 0, h[3], v, b))
  {
    InfoFields(h, v, b);
  }

  /** The tool reads back the unit's role, mode and record state, its version up to the
      terminator or 14 bytes, and of the build string what then still fits. */
  lemma InfoIsDecoded(s: Store, version: seq<uint8>, buildId: seq<uint8>)
    ensures DecodeInfo(InfoPayload(s, version, buildId))
         == Info(DeviceInfo(s.role, s.mode, s.recordValid, PROTOCOL_VERSION, CopyString(version, 14),
                            CopyString(buildId, 14 - |CopyString(version, 14)|)))
  {
    var v := CopyString(version, 14);
    var b := CopyString(buildId, 14 - |v|);
    DecodesFields([s.role, s.mode, Flag(s.recordValid), PROTOCOL_VERSION], v, b);
    InfoIsBytes(s, version, buildId);
  }

  lemma InfoIsBytes(s: Store, version: seq<uint8>, buildId: seq<uint8>)
    ensures InfoPayload(s, version, buildId)
         == InfoBytes([s.role, s.mode, Flag(s.recordValid), PROTOCOL_VERSION], CopyString(version, 14),
                      CopyString(buildId, 14 - |CopyString(version, 14)|))
  {
    var v := CopyString(version, 14);
    assert [s.role, s.mode, Flag(s.recordValid), PROTOCOL_VERSION, |v|]
        == [s.role, s.mode, Flag(s.recordValid), PROTOCOL_VERSION] + [|v|];
  }

  /** Whatever configuration a unit can be in, the tool reads exactly that. */
  lemma ConfigIsDecoded(crc: Checksum, s: Store)
    requires StoreInv(crc, s)
    ensures var p := ConfigPayload(s);
            && DecodeConfig(p) == Config(s.mode, s.baud)
            && (p[0] != 0 <==> s.recordValid) && p[1] == s.role && p[3] == RECORD_VERSION
  {
    var h := [Flag(s.recordValid), s.role, s.mode, RECORD_VERSION];
    ReadAt32(h, s.baud, []);
    assert h + Le32(s.baud) + [] == ConfigPayload(s);
    OfferedIsSupported(s.baud);
  }

  /** The test that the tool puts to the answer to SET_MODE. */
  predicate WriteConfirmed(p: seq<uint8>, mode: uint8, baud: uint32) {
    |p| == 7 && p[0] == 0 && p[1] == mode && p[2] != 0 && Read32(p, 3) == baud
  }

  lemma StateFields(code: uint8, s: Store)
    ensures var p := StatePayload(code, s);
            p[0] == code && p[1] == s.mode && (p[2] != 0 <==> s.recordValid) && Read32(p, 3) == s.baud
  {
    var h := [code, s.mode, Flag(s.recordValid)];
    ReadAt32(h, s.baud, []);
    assert h + Le32(s.baud) + [] == StatePayload(code, s);
  }

  /** `struct.pack("<BI", mode, baud)` */
  function ModeRequest(mode: uint8, baud: uint32): (p: seq<uint8>)
    ensures |p| == 5
  {
    [mode] + Le32(baud)
  }

  lemma RequestFields(mode: uint8, baud: uint32)
    ensures ModeRequest(mode, baud)[0] == mode && Read32(ModeRequest(mode, baud), 1) == baud
  {
    ReadAt32([mode], baud, []);
    assert [mode] + Le32(baud) + [] == ModeRequest(mode, baud);
  }

  // ----- one exchange -------------------------------------------------------------

  /** A frame arrives whole and the main loop looks at it. */
  function Talk(crc: Checksum, u: Unit, f: Frame, now: uint32, sendOk: bool, o: FlashOutcome): (r: (Unit, Effect))
    requires Inv(crc, u.filter) && f.Fits()
  {
    Update(crc, ConfigSession.FilterBytes(crc, u, FrameBuild(crc, f)).0, now, sendOk, o)
  }

  /** Nothing held back and nothing waiting. */
  predicate Quiet(u: Unit) { u.filter == Filter([], 0, NoFrame) }

  lemma EmptyHasNoMagic()
    ensures !Occurs([])
  {
  }

  /** A HELLO passes the filter in discovery, once that is on. */
  lemma HelloIsCaptured(crc: Checksum, u: Unit, f: Frame)
    requires Inv(crc, u.filter) && Quiet(u) && f.Fits() && f.command == CMD_HELLO
    requires u.phase.Discovery? && u.discoveryEnabled
    ensures ConfigSession.FilterBytes(crc, u, FrameBuild(crc, f)).0
         == u.(filter := Filter([], 0, Captured(FrameBuild(crc, f))))
  {
    EmptyHasNoMagic();
    BuiltFrameIsCaptured(crc, u.filter, u.phase, [], f);
    assert [] + FrameBuild(crc, f) == FrameBuild(crc, f);
  }

  /** In a session every command does. */
  lemma CommandIsCaptured(crc: Checksum, u: Unit, f: Frame)
    requires Inv(crc, u.filter) && Quiet(u) && f.Fits() && u.phase.Session?
    ensures ConfigSession.FilterBytes(crc, u, FrameBuild(crc, f)).0
         == u.(filter := Filter([], 0, Captured(FrameBuild(crc, f))))
  {
    EmptyHasNoMagic();
    BuiltFrameIsCaptured(crc, u.filter, u.phase, [], f);
    assert [] + FrameBuild(crc, f) == FrameBuild(crc, f);
  }

  /** A HELLO in discovery is acknowledged with its own challenge and what the unit is, and
      opens the session: at once in the boot probe, otherwise after 30 ms. */
  lemma HelloOpens(crc: Checksum, u: Unit, f: Frame, t: nat, o: FlashOutcome)
    requires Inv(crc, u.filter) && Quiet(u) && f.Fits() && f.command == CMD_HELLO
    requires u.phase.Discovery? && u.discoveryEnabled && !u.timers.rebootPending
    ensures var (v, effect) := Talk(crc, u, f, Wrap32(t), true, o);
            && effect.Greeted? && effect.accepted
            && effect.answer == Frame.Frame(CMD_HELLO_ACK, f.sequence, f.challenge,
                 [u.store.role, u.store.mode, Flag(u.store.recordValid), PROTOCOL_VERSION])
            && v.challenge == f.challenge && v.store == u.store && Quiet(v) && !v.timers.rebootPending
            && (if u.bootProbeActive then v.phase.Session?
                else v.phase.SwitchPending? && v.timers.switchAt == Wrap32(t + SWITCH_DELAY_MS))
  {
    HelloIsCaptured(crc, u, f);
    HelloIsGreeted(crc, u, f, Wrap32(t), o);
    HelloIsTimed(u, f, t);
  }

  lemma HelloIsTimed(u: Unit, f: Frame, t: nat)
    requires Quiet(u) && f.Fits() && u.phase.Discovery? && !u.timers.rebootPending
    ensures var v := RunTimers(AnswerHello(u, f, Wrap32(t), true).0, Wrap32(t)).0;
            && v.challenge == f.challenge && v.store == u.store && Quiet(v) && !v.timers.rebootPending
            && (if u.bootProbeActive then v.phase.Session?
                else v.phase.SwitchPending? && v.timers.switchAt == Wrap32(t + SWITCH_DELAY_MS))
  {
    WrapSum(t, SWITCH_DELAY_MS);
    ReachedMeansPast(t, t + SWITCH_DELAY_MS, 0);
  }

  lemma HelloIsGreeted(crc: Checksum, u: Unit, f: Frame, now: uint32, o: FlashOutcome)
    requires Inv(crc, u.filter) && Quiet(u) && f.Fits() && f.command == CMD_HELLO && u.phase.Discovery?
    ensures var bytes := FrameBuild(crc, f);
            var u1 := u.(filter := Filter([], 0, Captured(bytes)));
            && Inv(crc, u1.filter)
            && var (v, ack) := AnswerHello(u, f, now, true);
               TakeFrame(crc, u1, now, true, o) == (v, Greeted(bytes, ack, true))
  {
    BuiltFrame(crc, f);
  }

  /** The switch comes at the first look 30 ms or more after the acknowledgement. */
  lemma SessionFollows(crc: Checksum, u: Unit, t: nat, later: nat, sendOk: bool, o: FlashOutcome)
    requires Inv(crc, u.filter) && Quiet(u) && u.phase.SwitchPending? && t <= later < t + 0x8000_0000
    requires u.timers.switchAt == Wrap32(t + SWITCH_DELAY_MS) && !u.timers.rebootPending
    ensures var v := Update(crc, u, Wrap32(later), sendOk, o).0;
            && (v.phase.Session? <==> later >= t + SWITCH_DELAY_MS)
            && v.challenge == u.challenge && v.store == u.store && Quiet(v)
            && (v.phase.Session? ==> v.timers.sessionDeadline == Wrap32(later + SESSION_MS))
  {
    ReachedMeansPast(later, t + SWITCH_DELAY_MS, 0);
    WrapSum(later, SESSION_MS);
  }

  /** A frame with the session's challenge is obeyed and answered; the session goes on. */
  lemma TalkIsAnswered(crc: Checksum, u: Unit, f: Frame, now: uint32, sendOk: bool, o: FlashOutcome)
    requires UnitInv(crc, u) && Quiet(u) && u.phase.Session? && f.Fits() && f.challenge == u.challenge && o.Sane()
    ensures var (v, effect) := Talk(crc, u, f, now, sendOk, o);
            var (w, answer) := HandleCommand(crc, u, f, now, sendOk, o);
            && effect == Handled(FrameBuild(crc, f), answer)
            && UnitInv(crc, v) && Quiet(v) && v.phase.Session? && v.challenge == u.challenge && v.store == w.store
            && answer.sequence == f.sequence && answer.challenge == f.challenge
  {
    CommandIsCaptured(crc, u, f);
    BuiltFrame(crc, f);
    HandleCommandKeeps(crc, u, f, now, sendOk, o);
  }

  /** A frame with any other challenge is not. */
  lemma StrangerIsIgnored(crc: Checksum, u: Unit, f: Frame, now: uint32, sendOk: bool, o: FlashOutcome)
    requires UnitInv(crc, u) && Quiet(u) && u.phase.Session? && f.Fits() && f.challenge != u.challenge
    ensures var (v, effect) := Talk(crc, u, f, now, sendOk, o);
            effect == Ignored && v.store == u.store && v.challenge == u.challenge && v.phase.Session?
  {
    CommandIsCaptured(crc, u, f);
    BuiltFrame(crc, f);
  }

  /** An unknown command is named in an error answer and changes nothing but the lease. */
  lemma UnknownIsRefused(crc: Checksum, u: Unit, f: Frame, now: uint32, sendOk: bool, o: FlashOutcome)
    requires f.Fits() && f.command !in {CMD_GET_INFO, CMD_GET_CONFIG, CMD_SET_MODE, CMD_REBOOT}
    ensures HandleCommand(crc, u, f, now, sendOk, o)
         == (u.(timers := u.timers.(sessionDeadline := Wrap32(now + SESSION_MS))),
             Frame.Frame(CMD_ERROR, f.sequence, f.challenge, [f.command]))
  {
  }

  /** A REBOOT whose answer went out is carried out at the first look 50 ms or more later. */
  lemma RebootFollows(crc: Checksum, u: Unit, f: Frame, t: nat, later: nat, sendOk: bool, o: FlashOutcome)
    requires f.Fits() && f.command == CMD_REBOOT && !u.timers.rebootPending && t <= later < t + 0x8000_0000
    ensures RebootDue(HandleCommand(crc, u, f, Wrap32(t), sendOk, o).0, Wrap32(later))
       <==> sendOk && later >= t + REBOOT_DELAY_MS
    ensures HandleCommand(crc, u, f, Wrap32(t), sendOk, o).1 == f.(payload := [0])
  {
    WrapSum(t, REBOOT_DELAY_MS);
    ReachedMeansPast(later, t + REBOOT_DELAY_MS, 0);
  }

  // ----- a configuration goes through ---------------------------------------------

  function SetFrame(u: Unit, mode: uint8, baud: uint32): (f: Frame)
    ensures f.Fits()
  {
    Frame.Frame(CMD_SET_MODE, 4, u.challenge, ModeRequest(mode, baud))
  }

  function GetFrame(u: Unit): (f: Frame)
    ensures f.Fits()
  {
    Frame.Frame(CMD_GET_CONFIG, 5, u.challenge, [])
  }

  /** The tool's verdict on a write: the unit confirmed it, and asked again it says the same. */
  predicate Verified(written: Effect, readBack: Effect, mode: uint8, baud: uint32) {
    && written.Handled? && readBack.Handled?
    && written.answer.command == CMD_SET_MODE && readBack.answer.command == CMD_GET_CONFIG
    && WriteConfirmed(written.answer.payload, mode, baud)
    && DecodeConfig(readBack.answer.payload) == Config(mode, baud)
    && readBack.answer.payload[0] != 0
  }

  /** SET_MODE, then GET_CONFIG: the unit afterwards, and what each was answered. */
  function Configure(crc: Checksum, u: Unit, mode: uint8, baud: uint32, t1: uint32, t2: uint32,
                     o1: FlashOutcome, o2: FlashOutcome): (r: (Unit, Effect, Effect))
    requires UnitInv(crc, u) && Quiet(u) && u.phase.Session? && o1.Sane()
  {
    TalkIsAnswered(crc, u, SetFrame(u, mode, baud), t1, true, o1);
    var (v, written) := Talk(crc, u, SetFrame(u, mode, baud), t1, true, o1);
    var (w, readBack) := Talk(crc, v, GetFrame(v), t2, true, o2);
    (w, written, readBack)
  }

  /** In a session, for every mode and every baud rate the tool offers: the tool finds the
      write and its own readback verified if and only if the unit is in that configuration
      already or its flash works; and then the unit is in it, and so it is after a restart. */
  lemma ConfigurationGoesThrough(crc: Checksum, u: Unit, mode: uint8, baud: uint32, t1: uint32, t2: uint32,
                                 o1: FlashOutcome, o2: FlashOutcome)
    requires UnitInv(crc, u) && Quiet(u) && u.phase.Session? && o1.Sane() && o2.Sane()
    requires (mode == MODE_RC || mode == MODE_AIRPORT) && baud in OfferedBauds()
    ensures var (w, written, readBack) := Configure(crc, u, mode, baud, t1, t2, o1, o2);
            && (Verified(written, readBack, mode, baud) <==>
                  (IsCurrent(u.store, mode, baud) || FlashWorks(crc, u.store, mode, baud, o1)))
            && (Verified(written, readBack, mode, baud) ==>
                  IsCurrent(w.store, mode, baud) && |w.store.flash| == RECORD_SIZE
                  && LoadRecord(crc, w.store, true) == w.store)
  {
    TalkIsAnswered(crc, u, SetFrame(u, mode, baud), t1, true, o1);
    var v := Talk(crc, u, SetFrame(u, mode, baud), t1, true, o1).0;
    TalkIsAnswered(crc, v, GetFrame(v), t2, true, o2);
    WriteIsTold(crc, u, mode, baud, t1, o1);
    ConfigIsDecoded(crc, v.store);
  }

  lemma WriteIsTold(crc: Checksum, u: Unit, mode: uint8, baud: uint32, now: uint32, o: FlashOutcome)
    requires StoreInv(crc, u.store) && o.Sane()
    requires (mode == MODE_RC || mode == MODE_AIRPORT) && baud in OfferedBauds()
    ensures var (v, answer) := HandleCommand(crc, u, SetFrame(u, mode, baud), now, true, o);
            && answer.command == CMD_SET_MODE && StoreInv(crc, v.store)
            && (WriteConfirmed(answer.payload, mode, baud) <==>
                  (IsCurrent(u.store, mode, baud) || FlashWorks(crc, u.store, mode, baud, o)))
            && (WriteConfirmed(answer.payload, mode, baud) ==> IsCurrent(v.store, mode, baud))
  {
    var p := ModeRequest(mode, baud);
    RequestFields(mode, baud);
    OfferedIsSupported(baud);
    SetModeAnswers(crc, u.store, p, o);
    SetModeLeaves(crc, u.store, p, o);
    SetModeInv(crc, u.store, p, o);
    var (s, code) := SetMode(crc, u.store, p, o);
    StateFields(code, s);
  }

  // ----- what else a frame or a look at the clock does ----------------------------

  /** A HELLO whose acknowledgement could not be sent changes nothing that shows: the unit
      stays in discovery with its challenge, and logs as before unless the probe is on. */
  lemma UnsentAckChangesNothing(u: Unit, f: Frame, now: uint32)
    requires f.Fits()
    ensures var v := AnswerHello(u, f, now, false).0;
            && v == u.(loggingEnabled := v.loggingEnabled)
            && (LoggingIsEnabled(v) <==> LoggingIsEnabled(u) && !u.bootProbeActive)
  {
  }

  /** Log text never gets into AirPort traffic or into a session. */
  lemma LoggingKeepsOut(u: Unit)
    ensures u.store.mode == MODE_AIRPORT || !u.phase.Discovery? ==> !LoggingIsEnabled(u)
    ensures u.store.mode == MODE_RC && u.phase.Discovery? ==> (LoggingIsEnabled(u) <==> u.loggingEnabled)
  {
  }

  /** When the UART is switched, bytes held back of an unfinished frame are dropped. */
  lemma SwitchDropsHeld(u: Unit, now: uint32)
    requires u.phase.SwitchPending?
    ensures var v := RunTimers(u, now).0;
            if Reached(now, u.timers.switchAt) then
              v.phase.Session? && v.filter == Filter([], 0, u.filter.pending) && v.challenge == u.challenge
              && v.timers.sessionDeadline == Wrap32(now + SESSION_MS)
            else v.phase.SwitchPending? && v.filter == u.filter
  {
  }

  /** A reboot is requested for a session whose minute is over, at every look, and for a
      REBOOT command that is due, once. */
  lemma RebootIsRequested(u: Unit, now: uint32)
    requires !u.phase.SwitchPending?
    ensures RunTimers(u, now).1 == (if u.phase.Session? && Reached(now, u.timers.sessionDeadline) then 1 else 0)
                                 + (if u.timers.rebootPending && Reached(now, u.timers.rebootAt) then 1 else 0)
    ensures u.timers.rebootPending && Reached(now, u.timers.rebootAt) ==> !RunTimers(u, now).0.timers.rebootPending
    ensures !(u.timers.rebootPending && Reached(now, u.timers.rebootAt)) ==> RunTimers(u, now).0 == u
  {
  }

  /** The boot probe lets a HELLO in that discovery, switched off, would pass on, and opens the
      session at once; when the probe is over, frames are foreign bytes again. */
  lemma BootProbeOpens(crc: Checksum, u: Unit, f: Frame, t: nat, o: FlashOutcome)
    requires Inv(crc, u.filter) && Quiet(u) && f.Fits() && f.command == CMD_HELLO
    requires u.phase.Discovery? && !u.timers.rebootPending
    ensures var (v, effect) := Talk(crc, StartBootProbe(u), f, Wrap32(t), true, o);
            effect.Greeted? && effect.accepted && v.phase.Session? && v.challenge == f.challenge && Quiet(v)
    ensures ConfigSession.FilterBytes(crc, EndBootProbe(StartBootProbe(u)), FrameBuild(crc, f))
         == (EndBootProbe(StartBootProbe(u)), AsBytes(FrameBuild(crc, f)))
  {
    HelloOpens(crc, StartBootProbe(u), f, t, o);
  }
}
