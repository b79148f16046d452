/** The UART parser in front of the telemetry queue (Telemetry_RXhandleUARTin): one byte at
    a time into a buffer of 64, with a length check, a checksum and a time limit between
    bytes. What it hands on, and what of that the queue's comparators can handle. */
module TelemetryParser {
  import opened Widths
  import opened LengthPrefixed
  import opened TelemetrySpec

  const MAX_PACKET := 64
  const NOT_COUNTED := 2
  const FRAME_TIMEOUT := 100
  const ADDRESS_RADIO_TRANSMITTER := 0xEA

  /** The CRC-8 over type and payload. */
  type Checksum8 = seq<uint8> -> uint8

  datatype Output = Nothing | Delivered(frame: seq<uint8>)

  predicate IsSync(b: uint8) {
    b == ADDRESS_FLIGHT_CONTROLLER || b == ADDRESS_RADIO_TRANSMITTER || b == ADDRESS_CRSF_RECEIVER
  }

  /** The beginning of a frame. */
  predicate Partial(h: seq<uint8>) {
    h != [] ==> IsSync(h[0]) && (|h| >= 2 ==> 2 <= h[1] <= MAX_PACKET - NOT_COUNTED && |h| < h[1] + NOT_COUNTED)
  }

  /** What the parser hands on. */
  predicate Accepted(crc: Checksum8, f: seq<uint8>) {
    && 4 <= |f| <= MAX_PACKET && IsSync(f[0]) && |f| - NOT_COUNTED == f[1]
    && crc(f[2..|f| - 1]) == f[|f| - 1]
  }

  /** One byte after the bytes held of an unfinished frame. */
  function Feed(crc: Checksum8, h: seq<uint8>, b: uint8): (r: (seq<uint8>, Output))
    requires Partial(h)
    ensures Partial(r.0) && (r.1.Delivered? ==> Accepted(crc, r.1.frame))
  {
    var whole := h + [b];
    if |h| == 0 then (if IsSync(b) then whole else [], Nothing)
    else if |h| == 1 then (if 2 <= b <= MAX_PACKET - NOT_COUNTED then whole else [], Nothing)
    else if |whole| < h[1] + NOT_COUNTED then (whole, Nothing)
    else ([], if crc(whole[2..|h|]) == b then Delivered(whole) else Nothing)
  }

  datatype State = Idle | ReceivingLength | ReceivingData

  class CrsfParser {
    const crc: Checksum8
    const buffer: array<uint8>
    var state: State
    var currentByte: uint8
    var lastByteMs: uint32

    ghost predicate Valid()
      reads this, buffer
    {
      && buffer.Length == MAX_PACKET
      && (state.ReceivingLength? ==> currentByte == 0)
      && (state.ReceivingData? ==> buffer[1] <= MAX_PACKET - NOT_COUNTED && currentByte < buffer[1])
      && Partial(Held())
    }

    /** The bytes of the unfinished frame. */
    ghost function Held(): seq<uint8>
      requires buffer.Length == MAX_PACKET
      reads this, buffer
    {
      match state
      case Idle => []
      case ReceivingLength => buffer[..1]
      case ReceivingData => if currentByte + NOT_COUNTED <= MAX_PACKET then buffer[..currentByte + NOT_COUNTED] else []
    }

    constructor (crc: Checksum8)
      ensures Valid() && Held() == [] && this.crc == crc && fresh(buffer)
    {
      this.crc := crc;
      buffer := new uint8[MAX_PACKET];
      state, currentByte, lastByteMs := Idle, 0, 0;
    }

    /** `Telemetry_RXhandleUARTin`; `output` is what goes to AppendTelemetryPackage. */
    method HandleUartIn(data: uint8, now: uint32) returns (taken: bool, output: Output)
      requires Valid()
      modifies this, buffer
      ensures Valid() && lastByteMs == now
      ensures var late := Wrap32(now - old(lastByteMs)) > FRAME_TIMEOUT;
              (Held(), output) == Feed(crc, if late then [] else old(Held()), data)
      ensures taken <==> Held() != [] || output.Delivered?
    {
      if state != Idle && Wrap32(now - lastByteMs) > FRAME_TIMEOUT {
        state, currentByte := Idle, 0;
      }
      lastByteMs := now;
      taken, output := TakeByte(data);
    }

    method TakeByte(data: uint8) returns (taken: bool, output: Output)
      requires Valid()
      modifies this`state, this`currentByte, buffer
      ensures Valid() && (Held(), output) == Feed(crc, old(Held()), data)
      ensures taken <==> Held() != [] || output.Delivered?
    {
      ghost var h := Held();
      taken, output := true, Nothing;
      match state {
        case Idle =>
          if data == ADDRESS_FLIGHT_CONTROLLER || data == ADDRESS_RADIO_TRANSMITTER || data == ADDRESS_CRSF_RECEIVER {
            currentByte, state := 0, ReceivingLength;
            buffer[0] := data;
            assert Held() == h + [data];
          } else {
            taken := false;
          }
        case ReceivingLength =>
          if data < 2 || data > MAX_PACKET - NOT_COUNTED {
            state, taken := Idle, false;
          } else {
            state := ReceivingData;
            buffer[1] := data;
            assert Held() == h + [data];
          }
        case ReceivingData =>
          taken, output := TakeDataByte(data);
      }
    }

    method TakeDataByte(data: uint8) returns (taken: bool, output: Output)
      requires Valid() && state.ReceivingData?
      modifies this`state, this`currentByte, buffer
      ensures Valid() && (Held(), output) == Feed(crc, old(Held()), data)
      ensures taken <==> Held() != [] || output.Delivered?
    {
      ghost var h := Held();
      taken, output := true, Nothing;
      buffer[currentByte + NOT_COUNTED] := data;
      currentByte := currentByte + 1;
      assert buffer[..currentByte + NOT_COUNTED] == h + [data];
      if buffer[1] == currentByte {
        var sum := crc(buffer[NOT_COUNTED..NOT_COUNTED + buffer[1] - 1]);
        assert buffer[NOT_COUNTED..NOT_COUNTED + buffer[1] - 1] == (h + [data])[2..|h|];
        state := Idle;
        if data == sum {
          output := Delivered(buffer[..currentByte + NOT_COUNTED]);
        } else {
          taken := false;
        }
      }
    }
  }

  // ----- whole streams ------------------------------------------------------------

  /** A byte, and whether it came too long after the one before. */
  datatype Input = Input(late: bool, b: uint8)

  /** A frame handed on, and where in the stream it ended. */
  datatype Hit = Hit(end: nat, frame: seq<uint8>)

  datatype Stream = Stream(held: seq<uint8>, input: seq<uint8>, hits: seq<Hit>)

  function StepStream(crc: Checksum8, t: Stream, i: Input): (t': Stream)
    requires Partial(t.held)
    ensures Partial(t'.held)
  {
    var (h, out) := Feed(crc, if i.late then [] else t.held, i.b);
    Stream(h, t.input + [i.b], if out.Delivered? then t.hits + [Hit(|t.input| + 1, out.frame)] else t.hits)
  }

  function RunStream(crc: Checksum8, t: Stream, xs: seq<Input>): (t': Stream)
    requires Partial(t.held)
    ensures Partial(t'.held)
    decreases |xs|
  {
    if xs == [] then t else StepStream(crc, RunStream(crc, t, xs[..|xs| - 1]), xs[|xs| - 1])
  }

  predicate EndsAt(input: seq<uint8>, f: seq<uint8>, end: nat) {
    |f| <= end <= |input| && input[end - |f|..end] == f
  }

  /** The held bytes end the input; every frame handed on is accepted and stands in the
      input; frames neither overlap each other nor the held bytes. */
  predicate StreamInv(crc: Checksum8, t: Stream) {
    && Partial(t.held) && EndsAt(t.input, t.held, |t.input|)
    && HitsInv(crc, t.input, t.hits, |t.input| - |t.held|)
  }

  lemma EndStays(input: seq<uint8>, b: uint8, f: seq<uint8>, end: nat)
    requires EndsAt(input, f, end)
    ensures EndsAt(input + [b], f, end)
  {
    assert (input + [b])[end - |f|..end] == input[end - |f|..end];
  }

  lemma EndGrows(input: seq<uint8>, b: uint8, h: seq<uint8>)
    requires EndsAt(input, h, |input|)
    ensures EndsAt(input + [b], h + [b], |input| + 1)
  {
    assert (input + [b])[|input| - |h|..] == input[|input| - |h|..] + [b];
  }

  lemma NothingHeld(input: seq<uint8>)
    ensures EndsAt(input, [], |input|)
  {
  }

  /** What is held or handed on after a byte ends with it, and began no earlier. */
  lemma FeedEnds(crc: Checksum8, input: seq<uint8>, h: seq<uint8>, b: uint8)
    requires Partial(h) && EndsAt(input, h, |input|)
    ensures var (h', out) := Feed(crc, h, b);
            && EndsAt(input + [b], h', |input| + 1) && |h'| <= |h| + 1
            && (out.Delivered? ==> h' == [] && |out.frame| == |h| + 1 && EndsAt(input + [b], out.frame, |input| + 1))
  {
    EndGrows(input, b, h);
    NothingHeld(input + [b]);
  }

  predicate HitsInv(crc: Checksum8, input: seq<uint8>, hits: seq<Hit>, limit: int) {
    && (forall i :: 0 <= i < |hits| ==>
          Accepted(crc, hits[i].frame) && EndsAt(input, hits[i].frame, hits[i].end) && hits[i].end <= limit)
    && (forall i :: 1 <= i < |hits| ==> hits[i - 1].end <= hits[i].end - |hits[i].frame|)
  }

  lemma HitsStay(crc: Checksum8, input: seq<uint8>, hits: seq<Hit>, limit: int, b: uint8, later: int)
    requires HitsInv(crc, input, hits, limit) && limit <= later
    ensures HitsInv(crc, input + [b], hits, later)
  {
    forall k | 0 <= k < |hits| ensures EndsAt(input + [b], hits[k].frame, hits[k].end) {
      EndStays(input, b, hits[k].frame, hits[k].end);
    }
  }

  lemma HitsGrow(crc: Checksum8, input: seq<uint8>, hits: seq<Hit>, limit: int, f: seq<uint8>)
    requires HitsInv(crc, input, hits, limit) && limit <= |input| - |f|
    requires Accepted(crc, f) && EndsAt(input, f, |input|)
    ensures HitsInv(crc, input, hits + [Hit(|input|, f)], |input|)
  {
  }

  lemma StepStreamInv(crc: Checksum8, t: Stream, i: Input)
    requires StreamInv(crc, t)
    ensures StreamInv(crc, StepStream(crc, t, i))
  {
    NothingHeld(t.input);
    StepFrom(crc, t, if i.late then [] else t.held, i.b);
  }

  lemma StepFrom(crc: Checksum8, t: Stream, h: seq<uint8>, b: uint8)
    requires StreamInv(crc, t) && Partial(h) && |h| <= |t.held| && EndsAt(t.input, h, |t.input|)
    ensures var (h', out) := Feed(crc, h, b);
            var hits := if out.Delivered? then t.hits + [Hit(|t.input| + 1, out.frame)] else t.hits;
            StreamInv(crc, Stream(h', t.input + [b], hits))
  {
    FeedEnds(crc, t.input, h, b);
    var (h', out) := Feed(crc, h, b);
    if out.Delivered? {
      AfterDelivery(crc, t, b, out.frame);
    } else {
      AfterNothing(crc, t, h', b);
    }
  }

  lemma AfterDelivery(crc: Checksum8, t: Stream, b: uint8, f: seq<uint8>)
    requires HitsInv(crc, t.input, t.hits, |t.input| - |t.held|) && Accepted(crc, f)
    requires |f| <= |t.held| + 1 && EndsAt(t.input + [b], f, |t.input| + 1)
    ensures StreamInv(crc, Stream([], t.input + [b], t.hits + [Hit(|t.input| + 1, f)]))
  {
    var limit := |t.input| - |t.held|;
    HitsStay(crc, t.input, t.hits, limit, b, limit);
    HitsGrow(crc, t.input + [b], t.hits, limit, f);
  }

  lemma AfterNothing(crc: Checksum8, t: Stream, h': seq<uint8>, b: uint8)
    requires HitsInv(crc, t.input, t.hits, |t.input| - |t.held|) && Partial(h')
    requires |h'| <= |t.held| + 1 && EndsAt(t.input + [b], h', |t.input| + 1)
    ensures StreamInv(crc, Stream(h', t.input + [b], t.hits))
  {
    HitsStay(crc, t.input, t.hits, |t.input| - |t.held|, b, |t.input| + 1 - |h'|);
  }

  /** Nothing is invented: in every run, whatever the pauses, the frames handed on stand in
      the input in that order, apart from each other, each with a right length and checksum. */
  lemma {:induction false} FramesStandInTheInput(crc: Checksum8, xs: seq<Input>)
    ensures StreamInv(crc, RunStream(crc, Stream([], [], []), xs))
    decreases |xs|
  {
    if xs == [] {
    } else {
      var n := |xs| - 1;
      FramesStandInTheInput(crc, xs[..n]);
      StepStreamInv(crc, RunStream(crc, Stream([], [], []), xs[..n]), xs[n]);
    }
  }

  /** The first bytes of a frame after a pause, without a pause between them. */
  predicate PausedPart(xs: seq<Input>, f: seq<uint8>) {
    |xs| <= |f| && forall k :: 0 <= k < |xs| ==> xs[k] == Input(k == 0, f[k])
  }

  predicate WellFormed(f: seq<uint8>) {
    4 <= |f| <= MAX_PACKET && IsSync(f[0]) && |f| - NOT_COUNTED == f[1]
  }

  lemma PartFed(crc: Checksum8, f: seq<uint8>, n: nat)
    requires WellFormed(f) && n < |f|
    ensures Partial(f[..n])
    ensures n + 1 < |f| ==> Feed(crc, f[..n], f[n]) == (f[..n + 1], Nothing)
    ensures n + 1 == |f| ==> Feed(crc, f[..n], f[n]) == ([], if Accepted(crc, f) then Delivered(f) else Nothing)
  {
    assert f[..n] + [f[n]] == f[..n + 1];
    if n + 1 == |f| {
      assert f[..n + 1] == f;
    }
  }

  /** The stream within a frame, `n` bytes of it taken. */
  function Within(t: Stream, f: seq<uint8>, n: nat): Stream
    requires n <= |f|
  {
    Stream(f[..n], t.input + f[..n], t.hits)
  }

  /** The stream behind a frame: nothing held, and the frame handed on if it is accepted. */
  function After(crc: Checksum8, t: Stream, f: seq<uint8>): Stream {
    Stream([], t.input + f, if Accepted(crc, f) then t.hits + [Hit(|t.input| + |f|, f)] else t.hits)
  }

  lemma FirstStep(crc: Checksum8, t: Stream, f: seq<uint8>)
    requires Partial(t.held) && WellFormed(f)
    ensures StepStream(crc, t, Input(true, f[0])) == Within(t, f, 1)
  {
    PartFed(crc, f, 0);
    assert f[..0] == [] && f[..1] == [f[0]];
  }

  lemma MiddleStep(crc: Checksum8, t: Stream, f: seq<uint8>, n: nat)
    requires WellFormed(f) && 1 <= n < |f|
    ensures Partial(f[..n])
    ensures StepStream(crc, Within(t, f, n), Input(false, f[n]))
         == if n + 1 < |f| then Within(t, f, n + 1) else After(crc, t, f)
  {
    PartFed(crc, f, n);
    InputGrows(t.input, f, n);
  }

  lemma InputGrows(input: seq<uint8>, f: seq<uint8>, n: nat)
    requires n < |f|
    ensures (input + f[..n]) + [f[n]] == input + f[..n + 1]
    ensures n + 1 == |f| ==> input + f[..n + 1] == input + f
    ensures |input + f[..n]| + 1 == |input| + n + 1
  {
    assert f[..|f|] == f;
  }

  lemma RunGrows(crc: Checksum8, t: Stream, xs: seq<Input>, n: nat)
    requires Partial(t.held) && |xs| == n + 1
    ensures RunStream(crc, t, xs) == StepStream(crc, RunStream(crc, t, xs[..n]), xs[n])
  {
  }

  lemma OneByte(crc: Checksum8, t: Stream, xs: seq<Input>)
    requires Partial(t.held) && |xs| == 1
    ensures RunStream(crc, t, xs) == StepStream(crc, t, xs[0])
  {
    RunGrows(crc, t, xs, 0);
    assert xs[..0] == [];
  }

  lemma {:induction false} PartStream(crc: Checksum8, t: Stream, f: seq<uint8>, xs: seq<Input>)
    requires Partial(t.held) && WellFormed(f) && PausedPart(xs, f) && xs != []
    ensures RunStream(crc, t, xs) == if |xs| < |f| then Within(t, f, |xs|) else After(crc, t, f)
    decreases |xs|
  {
    var n := |xs| - 1;
    if n == 0 {
      OneByte(crc, t, xs);
      FirstStep(crc, t, f);
    } else {
      PartStream(crc, t, f, xs[..n]);
      RunGrows(crc, t, xs, n);
      MiddleStep(crc, t, f, n);
    }
  }

  /** After a pause the parser is in step again, whatever it held: a frame with a right
      length is handed on exactly when its checksum is right. */
  lemma PausedFrameIsDelivered(crc: Checksum8, t: Stream, f: seq<uint8>, xs: seq<Input>)
    requires Partial(t.held) && WellFormed(f) && PausedPart(xs, f) && |xs| == |f|
    ensures RunStream(crc, t, xs) == After(crc, t, f)
  {
    PartStream(crc, t, f, xs);
  }

  // ----- what the queue makes of it -----------------------------------------------

  /** What is handed on suits the queue exactly when an extended frame has its two
      addresses, which the parser does not ask for. */
  lemma AcceptedSuitsQueue(crc: Checksum8, f: seq<uint8>)
    requires Accepted(crc, f)
    ensures IsFrame(f) <==> (f[2] >= DEVICE_PING ==> |f| >= 6)
  {
  }

  /** So a device information of four bytes gets through. */
  lemma ShortDeviceInfoIsAccepted(crc: Checksum8)
    ensures var f := [ADDRESS_FLIGHT_CONTROLLER, 2, DEVICE_INFO, crc([DEVICE_INFO])];
            Accepted(crc, f) && !IsFrame(f)
  {
    var f := [ADDRESS_FLIGHT_CONTROLLER, 2, DEVICE_INFO, crc([DEVICE_INFO])];
    assert f[2..3] == [DEVICE_INFO];
  }

  /** In the queue its comparator takes the checksum for the one address, and for the other
      the length byte of the record behind it. */
  lemma ShortDeviceInfoIsMisread(rs: seq<Record>, k: nat)
    requires k + 1 < |rs| && |rs[k].slot| == 4
    ensures var start := Position(rs, k) + 1;
            && start + 4 < |Encode(rs)|
            && Encode(rs)[start + 3] == rs[k].slot[3] && Encode(rs)[start + 4] == Header(rs[k + 1])
  {
    EncodeAt(rs, k);
    EncodeAt(rs, k + 1);
    assert Encode(rs)[Position(rs, k) + 1..Position(rs, k) + 5][3] == rs[k].slot[3];
  }

  /** A frame may be addressed by the flight controller, a radio transmitter or the receiver. */
  lemma SyncBytes(b: uint8)
    ensures IsSync(b) <==> b in {0xC8, 0xEA, 0xEC}
  {
  }
}
