/**
 The FIFO object itself: a storage array allocated once at construction,
 head and tail indices, and the empty/full flags, with the bytes held kept
 as a ghost sequence. `Valid` ties the fields to the pure ring of module
 RingBuffer, so each method is proved to do what the matching ring function
 does and, through it, what the abstract queue does.
 */
module Fifo {
  import opened Bytes
  import Queue
  import RingBuffer

  class FIFO {
    const capacity: nat
    const buffer: array<uint8>
    var head: nat
    var tail: nat
    var empty: bool
    var full: bool
    ghost var contents: seq<uint8>

    /** The ring the fields currently spell out. */
    ghost function State(): RingBuffer.Ring
      reads this, buffer
    {
      RingBuffer.Ring(buffer[..], head, tail, empty, full)
    }

    ghost predicate Valid()
      reads this, buffer
    {
      && buffer.Length == capacity
      && RingBuffer.Valid(State())
      && contents == RingBuffer.Contents(State())
    }

    /** Allocates `capacity` bytes of storage; the FIFO starts out empty. */
    constructor(capacity: nat)
      requires 0 < capacity
      ensures Valid() && fresh(buffer)
      ensures this.capacity == capacity && contents == []
      ensures State() == RingBuffer.New(capacity)
    {
      this.capacity := capacity;
      buffer := new uint8[capacity](_ => 0);
      head, tail := 0, 0;
      empty, full := true, false;
      contents := [];
    }

    /** Resets head and tail and marks the FIFO empty and not full. */
    method Clear()
      requires Valid()
      modifies this
      ensures Valid() && contents == []
      ensures State() == RingBuffer.Clear(old(State()))
    {
      head, tail := 0, 0;
      empty, full := true, false;
      contents := [];
    }

    /** Pushes `b` at the tail; on a full FIFO the byte at the head is lost. */
    method Push(b: uint8)
      requires Valid()
      modifies this, buffer
      ensures Valid()
      ensures contents == Queue.Push(old(contents), capacity, b)
      ensures State() == RingBuffer.Push(old(State()), b)
    {
      ghost var before := State();
      buffer[tail] := b;
      if full {
        head := RingBuffer.Next(head, capacity);
      }
      tail := RingBuffer.Next(tail, capacity);
      empty := false;
      full := head == tail;
      assert State() == RingBuffer.Push(before, b);
      contents := Queue.Push(contents, capacity, b);
    }

    /** Pops the byte pushed earliest; zero when the FIFO is empty. */
    method Pop() returns (b: uint8)
      requires Valid()
      modifies this
      ensures Valid()
      ensures (b, contents) == Queue.Pop(old(contents))
      ensures (b, State()) == RingBuffer.Pop(old(State()))
    {
      if empty {
        return 0;
      }
      b := buffer[head];
      head := RingBuffer.Next(head, capacity);
      full := false;
      empty := head == tail;
      contents := contents[1..];
    }

    function IsEmpty(): (e: bool)
      requires Valid()
      reads this, buffer
      ensures e <==> contents == []
    {
      empty
    }

    function IsFull(): (f: bool)
      requires Valid()
      reads this, buffer
      ensures f <==> |contents| == capacity
    {
      full
    }
  }
}
