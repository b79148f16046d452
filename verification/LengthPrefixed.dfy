/** Length-prefixed records in a byte ring. The top bit of the length byte marks a
    deleted record whose bytes still occupy the ring. */
module LengthPrefixed {
  import opened Widths
  import opened ByteFifo

  type Slot = s: seq<uint8> | |s| < 0x80

  datatype Record = Record(deleted: bool, slot: Slot)

  predicate IsDel(size: uint8) { size >= 0x80 }

  function SetDel(size: uint8): uint8 { if size >= 0x80 then size else size + 0x80 }

  function SizeOf(size: uint8): uint8 { size % 0x80 }

  function Header(r: Record): uint8 {
    if r.deleted then SetDel(|r.slot|) else |r.slot|
  }

  function Encode(rs: seq<Record>): seq<uint8> {
    if rs == [] then [] else [Header(rs[0])] + rs[0].slot + Encode(rs[1..])
  }

  function Position(rs: seq<Record>, k: nat): nat
    requires k <= |rs|
  {
    |Encode(rs[..k])|
  }

  lemma FirstApart(xs: seq<Record>, ys: seq<Record>)
    requires xs != []
    ensures xs + ys != [] && (xs + ys)[0] == xs[0] && (xs + ys)[1..] == xs[1..] + ys
  {
  }

  lemma Reassociate(a: seq<uint8>, b: seq<uint8>, c: seq<uint8>)
    ensures a + (b + c) == (a + b) + c
  {
  }

  lemma {:induction false} EncodeConcat(xs: seq<Record>, ys: seq<Record>)
    ensures Encode(xs + ys) == Encode(xs) + Encode(ys)
  {
    if xs == [] {
      assert xs + ys == ys;
    } else {
      FirstApart(xs, ys);
      EncodeConcat(xs[1..], ys);
      Reassociate([Header(xs[0])] + xs[0].slot, Encode(xs[1..]), Encode(ys));
    }
  }

  lemma EncodeOne(r: Record)
    ensures Encode([r]) == [Header(r)] + r.slot
  {
    assert Encode([r]) == [Header(r)] + r.slot + Encode([]);
  }

  lemma Splice(a: seq<uint8>, b: seq<uint8>, c: seq<uint8>)
    ensures var s := a + b + c;
            s[..|a|] == a && s[|a|..|a| + |b|] == b && s[|a| + |b|..] == c
  {
  }

  lemma SpliceRecord(a: seq<uint8>, h: uint8, b: seq<uint8>, c: seq<uint8>)
    ensures var s := a + ([h] + b) + c;
            s[|a|] == h && s[|a| + 1..|a| + 1 + |b|] == b
  {
  }

  lemma EncodeSplit(rs: seq<Record>, k: nat)
    requires k < |rs|
    ensures Encode(rs) == Encode(rs[..k]) + ([Header(rs[k])] + rs[k].slot) + Encode(rs[k + 1..])
    ensures Position(rs, k + 1) == Position(rs, k) + 1 + |rs[k].slot|
  {
    assert rs == rs[..k + 1] + rs[k + 1..];
    EncodeConcat(rs[..k + 1], rs[k + 1..]);
    assert rs[..k + 1] == rs[..k] + [rs[k]];
    EncodeConcat(rs[..k], [rs[k]]);
    EncodeOne(rs[k]);
  }

  /** Record `k` starts at its position: header, bytes, next record. */
  lemma EncodeAt(rs: seq<Record>, k: nat)
    requires k < |rs|
    ensures var p := Position(rs, k);
            && p + 1 + |rs[k].slot| == Position(rs, k + 1) <= |Encode(rs)|
            && Encode(rs)[p] == Header(rs[k])
            && Encode(rs)[p + 1..p + 1 + |rs[k].slot|] == rs[k].slot
  {
    EncodeSplit(rs, k);
    SpliceRecord(Encode(rs[..k]), Header(rs[k]), rs[k].slot, Encode(rs[k + 1..]));
  }

  lemma PositionEnd(rs: seq<Record>)
    ensures Position(rs, |rs|) == |Encode(rs)|
  {
    assert rs[..|rs|] == rs;
  }

  /** A record replaced by one that occupies as many bytes changes only those bytes. */
  lemma EncodeReplace(rs: seq<Record>, k: nat, r: Record)
    requires k < |rs| && |r.slot| == |rs[k].slot|
    ensures var p := Position(rs, k);
            && p + 1 + |r.slot| <= |Encode(rs)|
            && Encode(rs[k := r]) == Encode(rs)[..p] + ([Header(r)] + r.slot) + Encode(rs)[p + 1 + |r.slot|..]
  {
    var rs' := rs[k := r];
    EncodeSplit(rs, k);
    EncodeSplit(rs', k);
    assert rs'[..k] == rs[..k] && rs'[k + 1..] == rs[k + 1..];
    Splice(Encode(rs[..k]), [Header(rs[k])] + rs[k].slot, Encode(rs[k + 1..]));
  }

  /** Whether `need` more bytes are granted room. */
  predicate Fits(rs: seq<Record>, need: nat) {
    |Encode(rs)| + need < FIFO_SIZE
  }

  /** The oldest records dropped until there is room. */
  function Evict(rs: seq<Record>, need: nat): (kept: seq<Record>)
    requires need < FIFO_SIZE
    ensures Fits(kept, need)
  {
    if Fits(rs, need) then rs
    else
      assert rs != [];
      Evict(rs[1..], need)
  }

  /** Eviction drops the shortest prefix of whole records that makes room. */
  lemma {:induction false} EvictIsShortestPrefix(rs: seq<Record>, need: nat) returns (d: nat)
    requires need < FIFO_SIZE
    ensures d <= |rs| && Evict(rs, need) == rs[d..]
    ensures forall e :: 0 <= e < d ==> !Fits(rs[e..], need)
  {
    if Fits(rs, need) {
      d := 0;
    } else {
      var d1 := EvictIsShortestPrefix(rs[1..], need);
      d := d1 + 1;
      assert rs[1..][d1..] == rs[d..];
      forall e | 0 <= e < d
        ensures !Fits(rs[e..], need)
      {
        if e == 0 {
          assert rs[0..] == rs;
        } else {
          assert rs[e..] == rs[1..][e - 1..];
        }
      }
    }
  }

  /** The ring holds exactly the encoded records. */
  ghost predicate Holds(fifo: Fifo, rs: seq<Record>)
    reads fifo, fifo.buffer
  {
    fifo.Valid() && fifo.Contents() == Encode(rs)
  }

  /** Take the oldest record off the ring. */
  method PopRecord(fifo: Fifo, ghost rs: seq<Record>) returns (size: uint8, slot: seq<uint8>)
    requires Holds(fifo, rs) && rs != []
    modifies fifo
    ensures fifo.buffer == old(fifo.buffer) && Holds(fifo, rs[1..])
    ensures size == Header(rs[0]) && slot == rs[0].slot
  {
    size := fifo.Pop();
    slot := fifo.PopBytes(SizeOf(size));
  }

  /** What the oldest record occupies, and what is behind it. */
  lemma HeadApart(rs: seq<Record>)
    requires rs != []
    ensures Encode(rs) != [] && Encode(rs)[0] == Header(rs[0]) && SizeOf(Header(rs[0])) == |rs[0].slot|
    ensures |rs[0].slot| <= |Encode(rs)[1..]| && Encode(rs)[1..][|rs[0].slot|..] == Encode(rs[1..])
  {
    Behind(Header(rs[0]), rs[0].slot, Encode(rs[1..]));
  }

  lemma Behind(h: uint8, slot: seq<uint8>, more: seq<uint8>)
    ensures var s := [h] + slot + more;
            s[0] == h && |slot| <= |s[1..]| && s[1..][|slot|..] == more
  {
  }

  method SkipRecord(fifo: Fifo, ghost rs: seq<Record>)
    requires Holds(fifo, rs) && rs != []
    modifies fifo
    ensures fifo.buffer == old(fifo.buffer) && Holds(fifo, rs[1..])
  {
    HeadApart(rs);
    var size := fifo.Pop();
    fifo.Skip(SizeOf(size));
  }

  /** Drop records from the head of the ring until the requested room is there. */
  method MakeRoom(fifo: Fifo, ghost rs: seq<Record>, requiredSize: nat) returns (ghost kept: seq<Record>)
    requires Holds(fifo, rs) && requiredSize < FIFO_SIZE
    modifies fifo
    ensures fifo.buffer == old(fifo.buffer)
    ensures kept == Evict(rs, requiredSize) && Holds(fifo, kept)
  {
    kept := rs;
    while !fifo.Available(requiredSize)
      invariant fifo.buffer == old(fifo.buffer) && Holds(fifo, kept)
      invariant Evict(kept, requiredSize) == Evict(rs, requiredSize)
      decreases |kept|
    {
      assert kept != [];
      SkipRecord(fifo, kept);
      kept := kept[1..];
    }
  }

  lemma AppendedEncoding(rs: seq<Record>, slot: Slot)
    ensures Encode(rs + [Record(false, slot)]) == Encode(rs) + [|slot|] + slot
  {
    EncodeConcat(rs, [Record(false, slot)]);
    EncodeOne(Record(false, slot));
    Reassociate(Encode(rs), [|slot|], slot);
  }

  method PushRecord(fifo: Fifo, ghost rs: seq<Record>, slot: Slot)
    requires Holds(fifo, rs) && Fits(rs, |slot| + 1)
    modifies fifo, fifo.buffer
    ensures fifo.buffer == old(fifo.buffer) && Holds(fifo, rs + [Record(false, slot)])
  {
    AppendedEncoding(rs, slot);
    fifo.Push(|slot|);
    fifo.PushBytes(slot);
  }
}
