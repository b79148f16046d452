/** unified_config.c as it runs: static buffers and flags updated in place. Every function
    is proved to compute the state machine of ConfigSession. */
module ConfigUnit {
  import opened Bytes
  import opened ConfigFilter
  import opened ConfigFrames
  import opened ConfigRecord
  import opened ConfigSession
  import opened Widths

  class UnifiedConfig {
    const crc: Checksum
    var store: Store
    var phase: Phase
    var framePending: bool
    const pendingFrame: array<uint8>
    var pendingLength: uint8
    const filterBuffer: array<uint8>
    var filterLength: uint8
    var filterExpected: uint8
    var discoveryEnabled: bool
    var bootProbeActive: bool
    var loggingEnabled: bool
    var timers: Timers
    var challenge: uint32
    var version: seq<uint8>
    var buildId: seq<uint8>

    ghost predicate Shape()
      reads this
    {
      && filterBuffer.Length == MAX_FRAME && pendingFrame.Length == MAX_FRAME && filterBuffer != pendingFrame
      && filterLength <= MAX_FRAME && pendingLength <= MAX_FRAME
    }

    ghost function FilterState(): Filter
      requires Shape()
      reads this, pendingFrame, filterBuffer
    {
      Filter(filterBuffer[..filterLength], filterExpected,
             if framePending then Captured(pendingFrame[..pendingLength]) else NoFrame)
    }

    ghost function State(): Unit
      requires Shape()
      reads this, pendingFrame, filterBuffer
    {
      Unit(store, FilterState(), phase, challenge, timers,
           discoveryEnabled, bootProbeActive, loggingEnabled, version, buildId)
    }

    ghost predicate Valid()
      reads this, pendingFrame, filterBuffer
    {
      Shape() && UnitInv(crc, State())
    }

    /** `UnifiedConfig_Init` */
    constructor (flash: seq<uint8>, role: uint8, version: seq<uint8>, buildId: seq<uint8>, readOk: bool)
      requires |flash| == RECORD_SIZE
      ensures Valid() && fresh(filterBuffer) && fresh(pendingFrame) && crc == FirmwareCrc
      ensures State() == Init(crc, flash, role, version, buildId, readOk)
    {
      crc := FirmwareCrc;
      store := Store(role, MODE_RC, DEFAULT_BAUD, false, flash);
      this.version, this.buildId := version, buildId;
      phase := Discovery;
      framePending, pendingLength := false, 0;
      filterLength, filterExpected := 0, 0;
      timers := Timers(0, 0, 0, false);
      challenge := 0;
      discoveryEnabled, bootProbeActive, loggingEnabled := false, false, false;
      filterBuffer := new uint8[MAX_FRAME](_ => 0);
      pendingFrame := new uint8[MAX_FRAME](_ => 0);
      new;
      store := LoadRecord(crc, store, readOk);
      InitInv(crc, flash, role, version, buildId, readOk);
      assert FilterState() == Filter([], 0, NoFrame);
    }

    /** `filter_flush`: the held bytes are forwarded. */
    method FilterFlush() returns (items: seq<Item>)
      requires Shape()
      modifies this`filterLength, this`filterExpected
      ensures Shape() && items == AsBytes(old(filterBuffer[..filterLength]))
      ensures filterLength == 0 && filterExpected == 0
    {
      items := [];
      var i := 0;
      while i < filterLength
        invariant 0 <= i <= filterLength
        invariant items == AsBytes(filterBuffer[..i])
      {
        items := items + [Byte(filterBuffer[i])];
        i := i + 1;
      }
      filterLength, filterExpected := 0, 0;
    }

    /** One turn of the loop of `UnifiedConfig_FilterBytes`. */
    method FilterTurn(b: uint8) returns (items: seq<Item>)
      requires Shape() && Inv(crc, FilterState())
      modifies this`filterLength, this`filterExpected, this`framePending, this`pendingLength, filterBuffer, pendingFrame
      ensures Shape() && (FilterState(), items) == old(FilterByte(crc, FilterState(), phase, b))
    {
      ghost var f := FilterState();
      if filterLength < 8 && b != MAGIC[filterLength] {
        items := FilterFlush();
        if b == MAGIC[0] {
          filterBuffer[0] := b;
          filterLength := 1;
          assert filterBuffer[..1] == [b];
        } else {
          items := items + [Byte(b)];
          assert items == AsBytes(f.held + [b]);
          assert filterBuffer[..0] == [];
        }
        return;
      }
      filterBuffer[filterLength] := b;
      filterLength := filterLength + 1;
      ghost var held := f.held + [b];
      assert filterBuffer[..filterLength] == held;
      items := [];
      if filterLength == 12 {
        if filterBuffer[11] > MAX_PAYLOAD {
          items := FilterFlush();
          assert filterBuffer[..0] == [];
          return;
        }
        filterExpected := 20 + filterBuffer[11];
      }
      if filterExpected != 0 && filterLength == filterExpected {
        if Allowed(phase, filterBuffer[9]) && !framePending && FrameIsValid(crc, filterBuffer[..filterLength]) {
          forall k | 0 <= k < filterLength {
            pendingFrame[k] := filterBuffer[k];
          }
          pendingLength := filterLength;
          framePending := true;
          filterLength, filterExpected := 0, 0;
          items := [Item.Frame(pendingFrame[..pendingLength])];
          assert pendingFrame[..pendingLength] == held;
          assert filterBuffer[..0] == [];
        } else {
          items := FilterFlush();
          assert filterBuffer[..0] == [];
        }
      }
    }

    /** `UnifiedConfig_FilterBytes`; the result lists what was forwarded and captured. */
    method FilterBytes(data: seq<uint8>) returns (items: seq<Item>)
      requires Valid()
      modifies this`filterLength, this`filterExpected, this`framePending, this`pendingLength, filterBuffer, pendingFrame
      ensures Valid() && (State(), items) == old(ConfigSession.FilterBytes(crc, State(), data))
    {
      if phase.Discovery? && !discoveryEnabled {
        items := ForwardAll(data);
      } else {
        items := FilterLoop(data);
      }
    }

    method ForwardAll(data: seq<uint8>) returns (items: seq<Item>)
      ensures items == AsBytes(data)
    {
      items := [];
      for i := 0 to |data|
        invariant items == AsBytes(data[..i])
      {
        items := items + [Byte(data[i])];
      }
      assert data[..|data|] == data;
    }

    method FilterLoop(data: seq<uint8>) returns (items: seq<Item>)
      requires Shape() && Inv(crc, FilterState())
      modifies this`filterLength, this`filterExpected, this`framePending, this`pendingLength, filterBuffer, pendingFrame
      ensures Shape() && (FilterState(), items) == old(FilterAll(crc, FilterState(), phase, data))
    {
      items := [];
      ghost var f := FilterState();
      var i := 0;
      while i < |data|
        invariant 0 <= i <= |data| && Shape()
        invariant (FilterState(), items) == FilterAll(crc, f, phase, data[..i])
      {
        FilterAllGrows(crc, f, phase, data[..i], data[i]);
        assert data[..i + 1] == data[..i] + [data[i]];
        var more := FilterTurn(data[i]);
        items := items + more;
        i := i + 1;
      }
      assert data[..i] == data;
    }

    /** `store_config` */
    method StoreConfig(mode: uint8, baud: uint32, o: FlashOutcome) returns (ok: bool)
      requires Shape() && o.Sane()
      modifies this`store
      ensures store == ConfigRecord.StoreConfig(crc, old(store), mode, baud, o)
      ensures ok == Stored(crc, old(store).role, mode, baud, o)
    {
      var record := BuildRecord(crc, store.role, mode, baud);
      store := store.(flash := o.content);
      if !o.eraseOk || !o.writeOk || !o.readOk || record != o.content || !RecordIsValid(crc, store.role, o.content) {
        store := store.(recordValid := false, mode := MODE_RC, baud := DEFAULT_BAUD);
        return false;
      }
      store := store.(recordValid := true, mode := mode, baud := baud);
      return true;
    }

    /** `handle_session_frame`; `sendOk` is what `frame_send` reports. */
    method HandleSessionFrame(f: Frame, now: uint32, sendOk: bool, o: FlashOutcome) returns (answer: Frame)
      requires Shape() && f.Fits() && o.Sane()
      modifies this`store, this`timers
      ensures Shape() && (State(), answer) == old(HandleCommand(crc, State(), f, now, sendOk, o))
    {
      timers := timers.(sessionDeadline := Wrap32(now + SESSION_MS));
      if f.command == CMD_GET_INFO {
        answer := f.(payload := InfoPayload(store, version, buildId));
      } else if f.command == CMD_GET_CONFIG {
        answer := f.(payload := ConfigPayload(store));
      } else if f.command == CMD_SET_MODE {
        var code: uint8;
        if |f.payload| != 5 || f.payload[0] > MODE_AIRPORT {
          code := 1;
        } else if !BaudIsSupported(Read32(f.payload, 1)) {
          code := 3;
        } else if store.recordValid && f.payload[0] == store.mode && Read32(f.payload, 1) == store.baud {
          code := 0;
        } else {
          var stored := StoreConfig(f.payload[0], Read32(f.payload, 1), o);
          code := if stored then 0 else 2;
        }
        answer := f.(payload := StatePayload(code, store));
      } else if f.command == CMD_REBOOT {
        if sendOk {
          timers := timers.(rebootAt := Wrap32(now + REBOOT_DELAY_MS), rebootPending := true);
        }
        answer := f.(payload := [0]);
      } else {
        answer := f.(command := CMD_ERROR, payload := [f.command]);
      }
    }

    /** `UnifiedConfig_Update`, with the number of reboots it requested. */
    method Update(now: uint32, sendOk: bool, o: FlashOutcome) returns (effect: Effect, reboots: nat)
      requires Valid() && o.Sane()
      modifies this
      ensures Valid() && (State(), effect) == old(ConfigSession.Update(crc, State(), now, sendOk, o))
      ensures reboots == old(RunTimers(TakeFrame(crc, State(), now, sendOk, o).0, now).1)
    {
      ghost var u := State();
      TakeFrameInv(crc, u, now, sendOk, o);
      effect := TakePending(now, sendOk, o);
      RunTimersInv(crc, State(), now);
      reboots := UpdateTimers(now);
    }

    /** The first half of `UnifiedConfig_Update`. */
    method TakePending(now: uint32, sendOk: bool, o: FlashOutcome) returns (effect: Effect)
      requires Shape() && Inv(crc, FilterState()) && o.Sane()
      modifies this
      ensures Shape() && (State(), effect) == old(TakeFrame(crc, State(), now, sendOk, o))
    {
      effect := Idle;
      if framePending {
        var bytes := pendingFrame[..pendingLength];
        var f := FrameOf(crc, bytes);
        framePending := false;
        effect := Ignored;
        if phase.Discovery? && f.command == CMD_HELLO {
          var answer := GreetHello(f, now, sendOk);
          effect := Greeted(bytes, answer, sendOk);
        } else if phase.Session? && f.challenge == challenge {
          var answer := HandleSessionFrame(f, now, sendOk, o);
          effect := Handled(bytes, answer);
        }
      }
    }

    method GreetHello(f: Frame, now: uint32, sendOk: bool) returns (answer: Frame)
      requires Shape() && f.Fits()
      modifies this`loggingEnabled, this`challenge, this`phase, this`timers
      ensures Shape() && (State(), answer) == old(AnswerHello(State(), f, now, sendOk))
    {
      answer := Frame.Frame(CMD_HELLO_ACK, f.sequence, f.challenge,
                            [store.role, store.mode, Flag(store.recordValid), PROTOCOL_VERSION]);
      var loggingWasEnabled := loggingEnabled && store.mode == MODE_RC && phase.Discovery?;
      loggingEnabled := false;
      if sendOk {
        challenge := f.challenge;
        if bootProbeActive {
          phase := Session;
          timers := timers.(sessionDeadline := Wrap32(now + SESSION_MS));
        } else {
          timers := timers.(switchAt := Wrap32(now + SWITCH_DELAY_MS));
          phase := SwitchPending;
        }
      } else if loggingWasEnabled && !bootProbeActive {
        loggingEnabled := true;
      }
    }

    method UpdateTimers(now: uint32) returns (reboots: nat)
      requires Shape()
      modifies this`filterLength, this`filterExpected, this`phase, this`timers
      ensures Shape() && (State(), reboots) == old(RunTimers(State(), now))
    {
      reboots := 0;
      if phase.SwitchPending? && Reached(now, timers.switchAt) {
        filterLength, filterExpected := 0, 0;
        phase := Session;
        timers := timers.(sessionDeadline := Wrap32(now + SESSION_MS));
        assert filterBuffer[..0] == [];
      }
      if phase.Session? && Reached(now, timers.sessionDeadline) {
        reboots := reboots + 1;
      }
      if timers.rebootPending && Reached(now, timers.rebootAt) {
        timers := timers.(rebootPending := false);
        reboots := reboots + 1;
      }
    }

    method StartBootProbe()
      requires Valid()
      modifies this`bootProbeActive, this`discoveryEnabled
      ensures Valid() && State() == old(ConfigSession.StartBootProbe(State()))
    {
      bootProbeActive := true;
      discoveryEnabled := true;
    }

    /** Bytes held at this moment are dropped, not forwarded. */
    method EndBootProbe()
      requires Valid()
      modifies this`bootProbeActive, this`discoveryEnabled, this`filterLength, this`filterExpected
      ensures Valid() && State() == old(ConfigSession.EndBootProbe(State()))
    {
      bootProbeActive := false;
      discoveryEnabled := false;
      filterLength, filterExpected := 0, 0;
      assert filterBuffer[..0] == [];
    }
  }
}
