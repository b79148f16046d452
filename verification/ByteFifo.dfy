/** The 512-byte ring that carries length-prefixed messages. Its contents are a plain
    byte sequence; head and tail wrap. */
module ByteFifo {
  import opened Widths

  const FIFO_SIZE := 512

  /** Cell `i` places after `start`, for at most one turn of the ring. */
  function Cell(start: nat, i: nat): (c: nat)
    requires start < FIFO_SIZE && i <= FIFO_SIZE
    ensures c == (start + i) % FIFO_SIZE
  {
    if start + i < FIFO_SIZE then start + i else start + i - FIFO_SIZE
  }

  lemma CellShift(start: nat, len: nat, k: nat)
    requires start < FIFO_SIZE && len + k <= FIFO_SIZE
    ensures Cell((start + len) % FIFO_SIZE, k) == Cell(start, len + k)
  {
    assert Cell(start, len) == (start + len) % FIFO_SIZE;
  }

  lemma PastTheTail(head: nat, size: nat, len: nat)
    requires size < len
    ensures (head + len) % FIFO_SIZE == (head + size) % FIFO_SIZE <==> (len - size) % FIFO_SIZE == 0
  {
  }

  class Fifo {
    var buffer: array<uint8>
    var head: nat
    var tail: nat
    var numElements: nat

    ghost predicate Valid()
      reads this
    {
      && buffer.Length == FIFO_SIZE && head < FIFO_SIZE && tail < FIFO_SIZE
      && numElements <= FIFO_SIZE && tail == Cell(head, numElements)
    }

    ghost function Contents(): (s: seq<uint8>)
      requires Valid()
      reads this, buffer
      ensures |s| == numElements
    {
      seq(numElements, i requires 0 <= i < numElements reads this, buffer requires Valid() =>
        buffer[Cell(head, i)])
    }

    constructor ()
      ensures Valid() && Contents() == [] && fresh(buffer)
    {
      buffer := new uint8[FIFO_SIZE];
      head, tail, numElements := 0, 0, 0;
    }

    method Flush()
      requires Valid()
      modifies this
      ensures Valid() && buffer == old(buffer) && Contents() == []
    {
      head, tail, numElements := 0, 0, 0;
    }

    /** A byte pushed onto a full ring is dropped together with everything in it. */
    method Push(data: uint8)
      requires Valid()
      modifies this, buffer
      ensures Valid() && buffer == old(buffer)
      ensures Contents() == if |old(Contents())| == FIFO_SIZE then [] else old(Contents()) + [data]
    {
      if numElements == FIFO_SIZE {
        Flush();
      } else {
        numElements := numElements + 1;
        buffer[tail] := data;
        tail := (tail + 1) % FIFO_SIZE;
        assert Contents()[..numElements - 1] == old(Contents());
      }
    }

    method PushBytes(data: seq<uint8>)
      requires Valid()
      modifies this, buffer
      ensures Valid() && buffer == old(buffer)
      ensures Contents() == if |old(Contents())| + |data| > FIFO_SIZE then [] else old(Contents()) + data
    {
      if numElements + |data| > FIFO_SIZE {
        Flush();
        return;
      }
      ghost var before := Contents();
      for i := 0 to |data|
        invariant buffer == old(buffer) && buffer.Length == FIFO_SIZE
        invariant head == old(head) < FIFO_SIZE && numElements == old(numElements)
        invariant tail == Cell(head, numElements + i)
        invariant forall k :: 0 <= k < numElements ==> buffer[Cell(head, k)] == before[k]
        invariant forall k :: numElements <= k < numElements + i ==> buffer[Cell(head, k)] == data[k - numElements]
      {
        buffer[tail] := data[i];
        tail := (tail + 1) % FIFO_SIZE;
      }
      numElements := numElements + |data|;
    }

    /** Popping an empty ring yields 0. */
    method Pop() returns (data: uint8)
      requires Valid()
      modifies this
      ensures Valid() && buffer == old(buffer)
      ensures if old(Contents()) == [] then data == 0 && Contents() == []
              else data == old(Contents())[0] && Contents() == old(Contents())[1..]
    {
      if numElements == 0 {
        return 0;
      }
      numElements := numElements - 1;
      data := buffer[head];
      head := (head + 1) % FIFO_SIZE;
    }

    /** Popping more than there is empties the ring and reads nothing. */
    method PopBytes(len: nat) returns (data: seq<uint8>)
      requires Valid()
      modifies this
      ensures Valid() && buffer == old(buffer)
      ensures if |old(Contents())| < len then data == [] && Contents() == []
              else data == old(Contents())[..len] && Contents() == old(Contents())[len..]
    {
      data := [];
      if numElements < len {
        Flush();
        return;
      }
      numElements := numElements - len;
      for i := 0 to len
        invariant buffer == old(buffer) && buffer.Length == FIFO_SIZE && numElements == old(numElements) - len
        invariant tail == old(tail) && head == Cell(old(head), i) && |data| == i
        invariant forall k :: 0 <= k < i ==> data[k] == buffer[Cell(old(head), k)]
      {
        data := data + [buffer[head]];
        head := (head + 1) % FIFO_SIZE;
      }
      assert forall k :: 0 <= k < numElements ==> Cell(head, k) == Cell(old(head), len + k);
    }

    function Size(): (n: nat)
      requires Valid()
      reads this, buffer
      ensures n == |Contents()|
    {
      numElements
    }

    /** Room is judged strictly: a ring never fills its last byte this way. */
    predicate Available(requiredSize: nat)
      requires Valid()
      reads this, buffer
      ensures Available(requiredSize) <==> |Contents()| + requiredSize < FIFO_SIZE
    {
      numElements + requiredSize < FIFO_SIZE
    }

    method Get(index: nat) returns (value: uint8)
      requires Valid() && index < |Contents()|
      ensures value == Contents()[index]
    {
      value := buffer[(head + index) % FIFO_SIZE];
    }

    method Set(index: nat, value: uint8)
      requires Valid() && index < |Contents()|
      modifies buffer
      ensures Valid() && Contents() == old(Contents())[index := value]
    {
      buffer[(head + index) % FIFO_SIZE] := value;
    }

    /** Skipping more than there is empties the ring but moves the head past the tail: the
        ring is sound afterwards exactly when the excess is whole turns. */
    method Skip(len: nat)
      requires Valid()
      modifies this`head, this`numElements
      ensures |old(Contents())| >= len ==> Valid() && Contents() == old(Contents())[len..]
      ensures |old(Contents())| < len ==> (Valid() <==> (len - |old(Contents())|) % FIFO_SIZE == 0) && numElements == 0
    {
      ghost var size := numElements;
      numElements := numElements - Min(len, numElements);
      head := (head + len) % FIFO_SIZE;
      if size >= len {
        CellShift(old(head), len, numElements);
        forall k | 0 <= k < numElements ensures Cell(head, k) == Cell(old(head), len + k) {
          CellShift(old(head), len, k);
        }
      } else {
        PastTheTail(old(head), size, len);
      }
    }
  }
}
