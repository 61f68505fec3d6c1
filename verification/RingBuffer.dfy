/** The byte ring of kernel/driver/ringbuffer.c:1-75: a bounded queue in an array with one slot to spare. */
module RingBuffer {
  import opened Bytes

  class Ring {
    const buf: array<byte>
    const capacity: nat
    var head: nat
    var tail: nat

    ghost predicate Valid()
      reads this, buf
    {
      buf.Length == capacity + 1 && head <= capacity && tail <= capacity
    }

    /** The bytes from `head` up to `tail`, around the end of the array if need be. */
    ghost function Contents(): (s: seq<byte>)
      requires Valid()
      reads this, buf
      ensures |s| <= capacity
    {
      if head <= tail then buf[head..tail] else buf[head..] + buf[..tail]
    }

    constructor (cap: nat)
      ensures Valid() && fresh(buf) && capacity == cap && Contents() == []
    {
      buf := new byte[cap + 1];
      capacity := cap;
      head, tail := 0, 0;
    }

    method Used() returns (n: nat)
      requires Valid()
      ensures n == |Contents()|
    {
      if tail >= head {
        return tail - head;
      }
      n := capacity + 1 - head + tail;
    }

    method Free() returns (n: nat)
      requires Valid()
      ensures n == capacity - |Contents()|
    {
      var u := Used();
      n := capacity - u;
    }

    method Empty() returns (b: bool)
      requires Valid()
      ensures b <==> Contents() == []
    {
      b := head == tail;
    }

    method Full() returns (b: bool)
      requires Valid()
      ensures b <==> |Contents()| == capacity
    {
      NextSlot(tail, capacity + 1);
      b := (tail + 1) % (capacity + 1) == head;
    }

    /** Refused exactly when the ring is full. */
    method Push(c: byte) returns (ok: bool)
      requires Valid()
      modifies this, buf
      ensures Valid() && (ok <==> |old(Contents())| < capacity)
      ensures Contents() == if ok then old(Contents()) + [c] else old(Contents())
    {
      var full := Full();
      if full {
        return false;
      }
      NextSlot(tail, capacity + 1);
      buf[tail] := c;
      tail := (tail + 1) % (capacity + 1);
      ok := true;
    }

    /** Refused exactly when the ring is empty. */
    method Pop() returns (ok: bool, out: byte)
      requires Valid()
      modifies this`head
      ensures Valid() && (ok <==> old(Contents()) != [])
      ensures if ok then old(Contents()) == [out] + Contents() else Contents() == old(Contents())
    {
      out := 0;
      if head == tail {
        return false, out;
      }
      NextSlot(head, capacity + 1);
      out := buf[head];
      head := (head + 1) % (capacity + 1);
      ok := true;
    }

    method Reset()
      requires Valid()
      modifies this
      ensures Valid() && Contents() == []
    {
      head := 0;
      tail := 0;
    }
  }

  lemma NextSlot(i: nat, n: nat)
    requires i < n
    ensures (i + 1) % n == if i + 1 == n then 0 else i + 1
  {
  }
}
