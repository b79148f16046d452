/** Full-resolution RC packets: what the transmitter packs (Tx OTA.c) and what the receiver's
    channel table holds afterwards (Rx OTA.c). One packet carries eight channels and, as a
    single bit, AUX1; in the 12 and 16 channel modes packets alternate between two sets. */
module ChannelCodec {
  import opened BitWord
  import opened ChannelBits
  import opened Widths

  const CHANNELS := 16
  const CRSF_1000 := 191
  const CRSF_MID := 992
  const CRSF_2000 := 1792

  datatype Mode = Mode8 | Mode12 | Mode16

  /** `uplinkPower` has three bits. */
  datatype RcPacket = RcPacket(telemetryStatus: bool, uplinkPower: uint8, isHighAux: bool, ch4: bool,
                               chLow: seq<Byte>, chHigh: seq<Byte>) {
    predicate Shaped() { |chLow| == 5 && |chHigh| == 5 && uplinkPower < 8 }
  }

  /** The one layout that both ends are proved to use: the first channel of each group of four. */
  function Layout(mode: Mode, high: bool): (r: (nat, nat)) {
    match mode
    case Mode16 => if high then (8, 12) else (0, 4)
    case Mode12 => if high then (0, 9) else (0, 5)
    case Mode8 => if high then (0, 9) else (0, 5)
  }

  function Constrain(x: uint8, low: uint8, high: uint8): uint8 {
    if x < low then low else if x > high then high else x
  }

  predicate IsFrame(v: seq<uint32>) {
    |v| == CHANNELS && forall i :: 0 <= i < CHANNELS ==> IsChannel(v[i])
  }

  /** The four channels from `from` on. */
  function Group(v: seq<uint32>, from: nat): (g: seq<uint32>)
    requires IsFrame(v) && from + 4 <= CHANNELS
    ensures |g| == 4 && forall k :: 0 <= k < 4 ==> g[k] == v[from + k] && IsChannel(g[k])
  {
    v[from..from + 4]
  }

  /** The packet that `GenerateChannelData8ch12ch` writes for the channels `v`. */
  predicate Carries(p: RcPacket, mode: Mode, high: bool, telemetry: bool, v: seq<uint32>)
    requires IsFrame(v)
  {
    var (low, upper) := Layout(mode, high);
    && p.Shaped() && p.isHighAux == high && p.telemetryStatus == telemetry && p.ch4 == (v[4] > CRSF_MID)
    && Flat(p.chLow) == Stream(Group(v, low)) && Flat(p.chHigh) == Stream(Group(v, upper))
  }

  class ChannelSender {
    const mode: Mode
    var fullResIsHighAux: bool

    constructor (mode: Mode)
      ensures this.mode == mode && !fullResIsHighAux
    {
      this.mode := mode;
      fullResIsHighAux := false;
    }

    /** `OtaPackChannelData`: in the 8 channel mode the second set is never sent. */
    method Generate(v: seq<uint32>, telemetry: bool, power: uint8) returns (p: RcPacket)
      requires IsFrame(v)
      modifies this
      ensures p.uplinkPower + 1 == Constrain(power, 1, 8) as int
      ensures Carries(p, mode, !mode.Mode8? && old(fullResIsHighAux), telemetry, v)
      ensures fullResIsHighAux == (if mode.Mode8? then old(fullResIsHighAux) else !old(fullResIsHighAux))
    {
      if mode.Mode8? {
        p := PackPacket(v, telemetry, false, power);
      } else {
        p := PackPacket(v, telemetry, fullResIsHighAux, power);
        fullResIsHighAux := !fullResIsHighAux;
      }
    }

    /** `GenerateChannelData8ch12ch` */
    method PackPacket(v: seq<uint32>, telemetry: bool, isHighAux: bool, power: uint8) returns (p: RcPacket)
      requires IsFrame(v)
      ensures Carries(p, mode, isHighAux, telemetry, v)
      ensures p.uplinkPower + 1 == Constrain(power, 1, 8) as int
    {
      var low, upper := 0, 0;
      if mode.Mode16? {
        if isHighAux {
          low, upper := 8, 12;
        } else {
          low, upper := 0, 4;
        }
      } else {
        low, upper := 0, if isHighAux then 9 else 5;
      }
      var chLow, chHigh := new Byte[5](_ => NoBits(8)), new Byte[5](_ => NoBits(8));
      Pack(Group(v, low), chLow);
      Pack(Group(v, upper), chHigh);
      p := RcPacket(telemetry, Constrain(power, 1, 8) - 1, isHighAux, v[4] > CRSF_MID, chLow[..], chHigh[..]);
    }
  }

  function Unpacked(payload: seq<Byte>, n: nat): (v: uint32)
    requires |payload| == 5 && n < 4
  {
    Expand(Field(Flat(payload), n))
  }

  /** What the receiver's table holds at `i` after a packet. */
  function After(mode: Mode, p: RcPacket, before: seq<uint32>, i: nat): (v: uint32)
    requires p.Shaped() && |before| == CHANNELS && i < CHANNELS
  {
    var (low, upper) := Layout(mode, p.isHighAux);
    if low <= i < low + 4 then Unpacked(p.chLow, i - low)
    else if upper <= i < upper + 4 then Unpacked(p.chHigh, i - upper)
    else if i == 4 && !mode.Mode16? then (if p.ch4 then CRSF_2000 else CRSF_1000)
    else before[i]
  }

  class ChannelReceiver {
    const mode: Mode
    const channelData: array<uint32>
    var uplinkPower: uint8

    constructor (mode: Mode)
      ensures this.mode == mode && channelData.Length == CHANNELS && fresh(channelData)
    {
      this.mode := mode;
      uplinkPower := 0;
      channelData := new uint32[CHANNELS](_ => 0);
    }

    /** `UnpackChannelData8ch` */
    method UnpackPacket(p: RcPacket) returns (telemetry: bool)
      requires p.Shaped() && channelData.Length == CHANNELS
      modifies this, channelData
      ensures telemetry == p.telemetryStatus && uplinkPower == p.uplinkPower + 1
      ensures forall i :: 0 <= i < CHANNELS ==> channelData[i] == After(mode, p, old(channelData[..]), i)
    {
      var low, upper := 0, 0;
      if mode.Mode16? {
        if p.isHighAux {
          low, upper := 8, 12;
        } else {
          low, upper := 0, 4;
        }
      } else {
        channelData[4] := if p.ch4 then CRSF_2000 else CRSF_1000;
        low, upper := 0, if p.isHighAux then 9 else 5;
      }
      ghost var first := channelData[..];
      Unpack(p.chLow, channelData, low);
      forall i | low <= i < low + 4 ensures channelData[i] == Unpacked(p.chLow, i - low) {
        assert channelData[low + (i - low)] == Unpacked(p.chLow, i - low);
      }
      ghost var second := channelData[..];
      Unpack(p.chHigh, channelData, upper);
      forall i | upper <= i < upper + 4 ensures channelData[i] == Unpacked(p.chHigh, i - upper) {
        assert channelData[upper + (i - upper)] == Unpacked(p.chHigh, i - upper);
      }
      uplinkPower := p.uplinkPower + 1;
      telemetry := p.telemetryStatus;
    }
  }

  // ----- What arrives -------------------------------------------------------------

  /** The channels that one packet refreshes. */
  predicate Refreshed(mode: Mode, high: bool, i: nat) {
    match mode
    case Mode8 => i <= 8
    case Mode12 => i <= 4 || (if high then 9 <= i <= 12 else 5 <= i <= 8)
    case Mode16 => if high then 8 <= i <= 15 else i <= 7
  }

  /** The value that stands for channel `i` of `v`: the lowest bit is lost; AUX1, where it
      travels as a bit, becomes one of two positions. */
  function Delivered(mode: Mode, v: seq<uint32>, i: nat): (r: int)
    requires IsFrame(v) && i < CHANNELS
  {
    if i == 4 && !mode.Mode16? then (if v[4] > CRSF_MID then CRSF_2000 else CRSF_1000)
    else v[i] as int - v[i] % 2
  }

  lemma GroupArrives(v: seq<uint32>, payload: seq<Byte>, from: nat, i: nat)
    requires IsFrame(v) && from + 4 <= CHANNELS && from <= i < from + 4
    requires |payload| == 5 && Flat(payload) == Stream(Group(v, from))
    ensures Unpacked(payload, i - from) as int == v[i] - v[i] % 2
  {
    StreamField(Group(v, from), i - from);
    RoundTrip(v[i]);
  }

  lemma CarriedInGroup(mode: Mode, p: RcPacket, high: bool, telemetry: bool,
      v: seq<uint32>, before: seq<uint32>, i: nat)
    requires IsFrame(v) && |before| == CHANNELS && i < CHANNELS && Carries(p, mode, high, telemetry, v)
    requires var (low, upper) := Layout(mode, high); low <= i < low + 4 || upper <= i < upper + 4
    ensures After(mode, p, before, i) as int == v[i] - v[i] % 2
  {
    var (low, upper) := Layout(mode, high);
    if low <= i < low + 4 {
      GroupArrives(v, p.chLow, low, i);
    } else {
      GroupArrives(v, p.chHigh, upper, i);
    }
  }

  /** One delivered packet refreshes exactly its channels and leaves the others alone. */
  lemma PacketRefreshes(mode: Mode, p: RcPacket, high: bool, telemetry: bool,
      v: seq<uint32>, before: seq<uint32>, i: nat)
    requires IsFrame(v) && |before| == CHANNELS && i < CHANNELS
    requires Carries(p, mode, high, telemetry, v) && (mode.Mode8? ==> !high)
    ensures After(mode, p, before, i) as int
         == if Refreshed(mode, high, i) then Delivered(mode, v, i) else before[i] as int
  {
    var (low, upper) := Layout(mode, high);
    LayoutCovers(mode, high, i);
    if low <= i < low + 4 || upper <= i < upper + 4 {
      CarriedInGroup(mode, p, high, telemetry, v, before, i);
    }
  }

  /** The two groups, and AUX1 where it travels as a bit, are the channels refreshed. */
  lemma LayoutCovers(mode: Mode, high: bool, i: nat)
    requires i < CHANNELS && (mode.Mode8? ==> !high)
    ensures var (low, upper) := Layout(mode, high);
            Refreshed(mode, high, i) <==> low <= i < low + 4 || upper <= i < upper + 4 || (i == 4 && !mode.Mode16?)
  {
  }

  /** The channels that the mode transmits at all. */
  predicate Transmitted(mode: Mode, i: nat) {
    match mode
    case Mode8 => i <= 8
    case Mode12 => i <= 12
    case Mode16 => i <= 15
  }

  /** Any two packets generated one after the other, for the channels `v` and then `w`, both
      delivered: every transmitted channel holds a delivered value of `w` or, if the second
      packet does not carry it, of `v`; the channels not transmitted are unchanged. */
  lemma TwoPacketsRefreshAll(mode: Mode, p: RcPacket, q: RcPacket, high: bool, tp: bool, tq: bool,
                             v: seq<uint32>, w: seq<uint32>, before: seq<uint32>, between: seq<uint32>, i: nat)
    requires IsFrame(v) && IsFrame(w) && |before| == |between| == CHANNELS && i < CHANNELS
    requires Carries(p, mode, !mode.Mode8? && high, tp, v) && Carries(q, mode, !mode.Mode8? && !high, tq, w)
    requires forall k :: 0 <= k < CHANNELS ==> between[k] == After(mode, p, before, k)
    ensures After(mode, q, between, i) as int
         == if Refreshed(mode, !mode.Mode8? && !high, i) then Delivered(mode, w, i)
            else if Transmitted(mode, i) then Delivered(mode, v, i)
            else before[i] as int
    ensures Transmitted(mode, i)
       <==> Refreshed(mode, !mode.Mode8? && high, i) || Refreshed(mode, !mode.Mode8? && !high, i)
  {
    PacketRefreshes(mode, p, !mode.Mode8? && high, tp, v, before, i);
    PacketRefreshes(mode, q, !mode.Mode8? && !high, tq, w, between, i);
  }
}
