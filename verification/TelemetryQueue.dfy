/** The telemetry queue in the byte ring, with its scanning loops. */
module TelemetryQueue {
  import opened Widths
  import opened ByteFifo
  import opened LengthPrefixed
  import opened TelemetrySpec

  class Telemetry {
    const messagePayloads: Fifo
    var prioritizedCount: uint8
    ghost var records: seq<Record>

    ghost predicate Valid()
      reads this, messagePayloads, messagePayloads.buffer
    {
      Holds(messagePayloads, records) && Good(records)
    }

    constructor ()
      ensures Valid() && records == [] && prioritizedCount == 0
      ensures fresh(messagePayloads) && fresh(messagePayloads.buffer)
    {
      messagePayloads := new Fifo();
      prioritizedCount, records := 0, [];
    }

    /** The queued bytes from one record's length byte on. */
    lemma AtRecord(k: nat)
      requires Valid() && k < |records|
      ensures var p, c, s := Position(records, k), messagePayloads.Contents(), records[k].slot;
              && GoodSlot(s) && p + 1 + |s| == Position(records, k + 1) <= |c|
              && c[p] == Header(records[k]) && c[p + 1..p + 1 + |s|] == s
    {
      EncodeAt(records, k);
    }

    lemma AtByte(k: nat, j: nat)
      requires Valid() && k < |records| && j < |records[k].slot|
      ensures var p, c := Position(records, k) + 1 + j, messagePayloads.Contents();
              p < |c| && c[p] == records[k].slot[j]
    {
      AtRecord(k);
      var p := Position(records, k);
      assert messagePayloads.Contents()[p + 1..p + 1 + |records[k].slot|][j] == messagePayloads.Contents()[p + 1 + j];
    }

    /** A scan is inside the queue exactly while it is at some record. */
    lemma ScanEnd(k: nat)
      requires Valid() && k <= |records|
      ensures Position(records, k) < |messagePayloads.Contents()| <==> k < |records|
    {
      if k < |records| { AtRecord(k); } else { PositionEnd(records); }
    }

    /** One record as the scans see it: length byte, type byte, distance to the next. */
    method ReadRecord(ghost k: nat, position: nat) returns (size: uint8, frameType: uint8)
      requires Valid() && k < |records| && position == Position(records, k)
      ensures GoodSlot(records[k].slot)
      ensures IsDel(size) == records[k].deleted && frameType == records[k].slot[2]
      ensures SizeOf(size) == |records[k].slot| && (!records[k].deleted ==> size == |records[k].slot|)
      ensures position + 1 + SizeOf(size) == Position(records, k + 1)
    {
      AtRecord(k);
      AtByte(k, 2);
      size := messagePayloads.Get(position);
      frameType := messagePayloads.Get(position + 3);
    }

    /** The comparators read the queue itself, at the candidate's payload. */
    method CompareAt(f: Frame, ghost k: nat, position: nat) returns (overwrite: bool)
      requires Valid() && k < |records| && position == Position(records, k) + 1
      requires !records[k].deleted && GoodSlot(records[k].slot) && records[k].slot[2] == f[2]
      ensures overwrite <==> Hit(records[k], f)
    {
      ghost var s := records[k].slot;
      assert IsFrame(s[..s[1] + 2]);
      AtByte(k, 3);
      var first := messagePayloads.Get(position + 3);
      if f[2] == RPM || f[2] == TEMP || f[2] == CELLS {
        return first == f[3];
      } else if f[2] == ARDUPILOT_RESP {
        return first == AP_STATUS_TEXT && f[3] == AP_STATUS_TEXT;
      } else if f[2] == DEVICE_INFO {
        AtByte(k, 4);
        var second := messagePayloads.Get(position + 4);
        return first == f[3] && second == f[4];
      }
      return true;
    }

    /** Scan for a queued message the new one replaces. */
    method FindOverwrite(f: Frame) returns (found: bool, position: nat, ghost k: nat)
      requires Valid()
      ensures k == FindHit(records, f) && found == (k < |records|)
      ensures found ==> position == Position(records, k)
    {
      position, k, found := 0, 0, false;
      ScanEnd(0);
      while position < messagePayloads.Size()
        invariant k <= |records| && position == Position(records, k)
        invariant position < |messagePayloads.Contents()| <==> k < |records|
        invariant forall j :: 0 <= j < k ==> !Hit(records[j], f)
        decreases |records| - k
      {
        var size, frameType := ReadRecord(k, position);
        if !IsDel(size) && frameType == f[2] {
          var overwrite := CompareAt(f, k, position + 1);
          if overwrite {
            HitIsFirst(records, f, k);
            found := true;
            return;
          }
        }
        position := position + 1 + SizeOf(size);
        k := k + 1;
        ScanEnd(k);
      }
      HitIsFirst(records, f, k);
    }

    /** Copy the new frame over the start of the old one's bytes. */
    method Overwrite(f: Frame, ghost k: nat, position: nat)
      requires Valid() && k < |records| && position == Position(records, k)
      requires !records[k].deleted && |records[k].slot| >= |f|
      modifies this, messagePayloads.buffer
      ensures Valid() && prioritizedCount == old(prioritizedCount)
      ensures records == old(records)[k := Record(false, f + old(records)[k].slot[|f|..])]
    {
      OverwrittenEncoding(records, k, f);
      OverwrittenIsGood(records, k, f);
      CopyIn(f, position + 1);
      records := records[k := Record(false, f + records[k].slot[|f|..])];
    }

    method CopyIn(bytes: seq<uint8>, position: nat)
      requires messagePayloads.Valid() && position + |bytes| <= |messagePayloads.Contents()|
      modifies messagePayloads.buffer
      ensures messagePayloads.Valid()
      ensures messagePayloads.Contents() == Overlaid(old(messagePayloads.Contents()), position, bytes)
    {
      ghost var before := messagePayloads.Contents();
      for i := 0 to |bytes|
        invariant messagePayloads.Valid() && |messagePayloads.Contents()| == |before|
        invariant messagePayloads.Contents() == Overlaid(before, position, bytes[..i])
      {
        OverlaidStep(before, position, bytes, i);
        messagePayloads.Set(position + i, bytes[i]);
      }
      assert bytes[..|bytes|] == bytes;
    }

    method MarkDeleted(ghost k: nat, position: nat, size: uint8)
      requires Valid() && k < |records| && position == Position(records, k)
      requires !records[k].deleted && size == |records[k].slot|
      modifies this, messagePayloads.buffer
      ensures Valid() && prioritizedCount == old(prioritizedCount)
      ensures records == old(records)[k := Record(true, old(records)[k].slot)]
    {
      AtRecord(k);
      DeletedEncoding(records, k);
      messagePayloads.Set(position, SetDel(size));
      ReplacedIsGood(records, k, Record(true, records[k].slot));
      records := records[k := Record(true, records[k].slot)];
    }

    method AppendAtEnd(f: Frame)
      requires Valid()
      modifies this, messagePayloads, messagePayloads.buffer
      ensures Valid() && messagePayloads.buffer == old(messagePayloads.buffer)
      ensures records == AppendRecord(old(records), f) && prioritizedCount == old(prioritizedCount)
    {
      ghost var kept := MakeRoom(messagePayloads, records, |f| + 1);
      PushRecord(messagePayloads, kept, f);
      AppendedIsGood(records, f);
      records := AppendRecord(records, f);
    }

    method AppendTelemetryPackage(f: Frame)
      requires Valid()
      modifies this, messagePayloads, messagePayloads.buffer
      ensures Valid() && messagePayloads.buffer == old(messagePayloads.buffer)
      ensures records == Append(old(records), f)
      ensures prioritizedCount == CountAfterAppend(old(prioritizedCount), f)
    {
      if Discarded(f) {
        return;
      }
      var found, position := false, 0;
      ghost var k := |records|;
      if Searches(f) {
        found, position, k := FindOverwrite(f);
      }
      if IsPrioritised(f[2]) {
        prioritizedCount := Wrap8(prioritizedCount + 1);
      }
      if found {
        var size, frameType := ReadRecord(k, position);
        if size >= |f| {
          Overwrite(f, k, position);
          return;
        }
        MarkDeleted(k, position, size);
      }
      AppendAtEnd(f);
    }

    /** Scan for the first live prioritised message. */
    method FindFirstPrioritised() returns (found: bool, position: nat, ghost k: nat)
      requires Valid()
      ensures k == FindPrioritised(records) && found == (k < |records|)
      ensures found ==> position == Position(records, k)
    {
      position, k, found := 0, 0, false;
      ScanEnd(0);
      while position < messagePayloads.Size()
        invariant k <= |records| && position == Position(records, k)
        invariant position < |messagePayloads.Contents()| <==> k < |records|
        invariant forall j :: 0 <= j < k ==>
                    (records[j].deleted || !IsPrioritised(records[j].slot[2]))
        decreases |records| - k
      {
        var size, frameType := ReadRecord(k, position);
        if IsPrioritised(frameType) && !IsDel(size) {
          PrioritisedIsFirst(records, k);
          found := true;
          return;
        }
        position := position + 1 + SizeOf(size);
        k := k + 1;
        ScanEnd(k);
      }
      PrioritisedIsFirst(records, k);
    }

    method CopyOut(ghost k: nat, position: nat, size: uint8) returns (payload: seq<uint8>)
      requires Valid() && k < |records| && position == Position(records, k) && size == |records[k].slot|
      ensures payload == records[k].slot
    {
      payload := [];
      for pos := 0 to size
        invariant payload == records[k].slot[..pos]
      {
        AtByte(k, pos);
        var b := messagePayloads.Get(position + 1 + pos);
        payload := payload + [b];
      }
    }

    /** The payload buffer and the length of the frame in it, or no frame at all. */
    method GetNextPayload() returns (next: Next)
      requires Valid()
      modifies this, messagePayloads, messagePayloads.buffer
      ensures Valid() && messagePayloads.buffer == old(messagePayloads.buffer)
      ensures (records, prioritizedCount, next) == GetNext(old(records), old(prioritizedCount))
    {
      if prioritizedCount > 0 {
        var found, position;
        ghost var k;
        found, position, k := FindFirstPrioritised();
        if found {
          next := TakePrioritised(k, position);
          return;
        }
        prioritizedCount := 0;
      }
      next := TakeHead();
    }

    method TakePrioritised(ghost k: nat, position: nat) returns (next: Next)
      requires Valid() && k < |records| && position == Position(records, k) && prioritizedCount > 0
      requires !records[k].deleted
      modifies this, messagePayloads, messagePayloads.buffer
      ensures Valid() && messagePayloads.buffer == old(messagePayloads.buffer)
      ensures prioritizedCount == old(prioritizedCount) - 1
      ensures records == if k == 0 then old(records)[1..] else old(records)[k := Record(true, old(records)[k].slot)]
      ensures GoodSlot(old(records)[k].slot) && next == NextFrame(FrameOf(old(records)[k].slot))
    {
      var size, frameType := ReadRecord(k, position);
      prioritizedCount := prioritizedCount - 1;
      PositionZero(records, k);
      if position == 0 {
        var header, payload := PopRecord(messagePayloads, records);
        TailIsGood(records);
        records := records[1..];
        next := NextFrame(payload[..payload[1] + 2]);
      } else {
        var payload := CopyOut(k, position, size);
        MarkDeleted(k, position, size);
        next := NextFrame(payload[..payload[1] + 2]);
      }
    }

    /** Skip deleted records at the head; take the first live one. */
    method TakeHead() returns (next: Next)
      requires Valid()
      modifies this, messagePayloads
      ensures Valid() && messagePayloads.buffer == old(messagePayloads.buffer)
      ensures prioritizedCount == old(prioritizedCount)
      ensures var h := FindLive(old(records));
              if h == |old(records)| then records == [] && next == NoFrame
              else records == old(records)[h + 1..] && GoodSlot(old(records)[h].slot)
                   && next == NextFrame(FrameOf(old(records)[h].slot))
    {
      ghost var skipped := 0;
      while messagePayloads.Size() > 0
        invariant Valid() && messagePayloads.buffer == old(messagePayloads.buffer)
        invariant prioritizedCount == old(prioritizedCount)
        invariant skipped <= |old(records)| && records == old(records)[skipped..]
        invariant forall j :: 0 <= j < skipped ==> old(records)[j].deleted
        decreases |records|
      {
        assert records != [];
        var size, payload := PopRecord(messagePayloads, records);
        TailIsGood(records);
        ghost var taken := records[0];
        records := records[1..];
        if !IsDel(size) {
          return NextFrame(payload[..payload[1] + 2]);
        }
        skipped := skipped + 1;
      }
      return NoFrame;
    }
  }
}
