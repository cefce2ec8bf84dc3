/**
 The FIFO's representation: a storage block of `capacity` bytes, a head
 position where the next pop reads, a tail position where the next push
 writes, and two flags that tell an empty ring from a full one when head and
 tail coincide. The C++ class's pointers become indices into the storage.
 Every operation keeps the representation invariant `Valid` and is proved to
 act on the abstract contents exactly as the operation of module Queue.
 */
module RingBuffer {
  import opened Bytes
  import Queue

  datatype Ring = Ring(storage: seq<uint8>, head: nat, tail: nat, empty: bool, full: bool)

  /** The slot `i` positions after `p`, wrapping past the end of the storage. */
  function Slot(p: nat, i: nat, capacity: nat): (s: nat)
    requires p < capacity && i <= capacity
    ensures s < capacity
  {
    if p + i < capacity then p + i else p + i - capacity
  }

  /** The slot after `p`: a pointer increment that wraps from the last slot
      back to the first. */
  function Next(p: nat, capacity: nat): (s: nat)
    requires p < capacity
    ensures s == Slot(p, 1, capacity)
    ensures s == (p + 1) % capacity
  {
    if p + 1 == capacity then 0 else p + 1
  }

  function Capacity(r: Ring): (c: nat)
  {
    |r.storage|
  }

  /** The representation invariant: a non-empty storage block, head and tail
      inside it, never both empty and full, and head meeting tail exactly
      when one of the flags is set. */
  ghost predicate Valid(r: Ring)
  {
    && 0 < |r.storage|
    && r.head < |r.storage| && r.tail < |r.storage|
    && !(r.empty && r.full)
    && (r.head == r.tail <==> r.empty || r.full)
  }

  /** The number of bytes held. */
  function Count(r: Ring): (n: nat)
    requires Valid(r)
    ensures n <= Capacity(r)
    ensures r.tail == Slot(r.head, n, Capacity(r))
    ensures n == 0 <==> r.empty
    ensures n == Capacity(r) <==> r.full
  {
    if r.empty then 0
    else if r.full then Capacity(r)
    else if r.head < r.tail then r.tail - r.head
    else r.tail + Capacity(r) - r.head
  }

  /** The bytes held, oldest first: the abstraction of the ring as a queue. */
  ghost function Contents(r: Ring): (c: seq<uint8>)
    requires Valid(r)
    ensures |c| == Count(r)
  {
    seq(Count(r), i requires 0 <= i < Count(r) => r.storage[Slot(r.head, i, Capacity(r))])
  }

  /** A new FIFO of the given capacity: storage allocated, head and tail at
      the start, empty and not full. */
  function New(capacity: nat): (r: Ring)
    requires 0 < capacity
    ensures Valid(r) && Capacity(r) == capacity
    ensures Contents(r) == []
    ensures IsEmpty(r) && !IsFull(r)
  {
    Ring(seq(capacity, _ => 0), 0, 0, true, false)
  }

  /** Resets head and tail and marks the ring empty and not full. The stored
      bytes are not erased, only made unreachable. */
  function Clear(r: Ring): (r': Ring)
    requires Valid(r)
    ensures Valid(r') && r'.storage == r.storage
    ensures r'.head == 0 && r'.tail == 0
    ensures Contents(r') == []
    ensures IsEmpty(r') && !IsFull(r')
  {
    Ring(r.storage, 0, 0, true, false)
  }

  /** Writes `b` at the tail and advances the tail; when the ring was full,
      the write lands on the head, which advances too, so the oldest byte is
      lost. */
  function Push(r: Ring, b: uint8): (r': Ring)
    requires Valid(r)
    ensures Valid(r') && Capacity(r') == Capacity(r)
    ensures Contents(r') == Queue.Push(Contents(r), Capacity(r), b)
  {
    var capacity := Capacity(r);
    var tail := Next(r.tail, capacity);
    var head := if r.full then Next(r.head, capacity) else r.head;
    Ring(r.storage[r.tail := b], head, tail, false, head == tail)
  }

  /** Reads the byte at the head and advances the head; an empty ring yields
      the zero byte and is left as it is. */
  function Pop(r: Ring): (p: (uint8, Ring))
    requires Valid(r)
    ensures Valid(p.1) && Capacity(p.1) == Capacity(r)
    ensures IsEmpty(r) ==> p == (0, r)
    ensures (p.0, Contents(p.1)) == Queue.Pop(Contents(r))
  {
    if r.empty then (0, r)
    else
      AdvanceHead(r);
      var head := Next(r.head, Capacity(r));
      (r.storage[r.head], Ring(r.storage, head, r.tail, head == r.tail, false))
  }

  /** On a non-empty ring, moving the head one slot on (and re-deriving the
      flags) drops exactly the oldest byte, the one stored at the head. */
  lemma AdvanceHead(r: Ring)
    requires Valid(r) && !r.empty
    ensures var head := Next(r.head, Capacity(r));
            var r' := Ring(r.storage, head, r.tail, head == r.tail, false);
            Valid(r') && Contents(r) == [r.storage[r.head]] + Contents(r')
  {
  }

  function IsEmpty(r: Ring): (e: bool)
    requires Valid(r)
    ensures e <==> Contents(r) == []
  {
    r.empty
  }

  function IsFull(r: Ring): (f: bool)
    requires Valid(r)
    ensures f <==> |Contents(r)| == Capacity(r)
  {
    r.full
  }

  /** Applies a sequence of pushes, pops and clears to the ring; the final
      ring and the value every pop returned. */
  function RunRing(r: Ring, ops: seq<Queue.Op>): (t: (Ring, seq<uint8>))
    requires Valid(r)
    ensures Valid(t.0) && Capacity(t.0) == Capacity(r)
    decreases |ops|
  {
    if |ops| == 0 then (r, [])
    else if ops[0].PushOp? then RunRing(Push(r, ops[0].b), ops[1..])
    else if ops[0].ClearOp? then RunRing(Clear(r), ops[1..])
    else
      var popped := Pop(r);
      var t := RunRing(popped.1, ops[1..]);
      (t.0, [popped.0] + t.1)
  }

  /** Any sequence of calls on the ring returns the same bytes and leaves the
      same contents as on the abstract queue. */
  lemma {:induction false} RunRefines(r: Ring, ops: seq<Queue.Op>)
    requires Valid(r)
    ensures Contents(RunRing(r, ops).0) == Queue.Run(Contents(r), Capacity(r), ops).contents
    ensures RunRing(r, ops).1 == Queue.Run(Contents(r), Capacity(r), ops).outputs
    decreases |ops|
  {
    if |ops| > 0 {
      if ops[0].PushOp? {
        RunRefines(Push(r, ops[0].b), ops[1..]);
      } else if ops[0].ClearOp? {
        RunRefines(Clear(r), ops[1..]);
      } else {
        RunRefines(Pop(r).1, ops[1..]);
      }
    }
  }

  /** The FIFO law on the ring: up to `capacity` bytes pushed into a new
      FIFO are popped back in push order, after which it is empty. */
  lemma RingRoundTrip(capacity: nat, xs: seq<uint8>)
    requires 0 < capacity && |xs| <= capacity
    ensures var t := RunRing(New(capacity), Queue.Pushes(xs) + Queue.Pops(|xs|));
            t.1 == xs && IsEmpty(t.0)
  {
    var pushes, pops := Queue.Pushes(xs), Queue.Pops(|xs|);
    RunRefines(New(capacity), pushes + pops);
    Queue.RunAppend([], capacity, pushes, pops);
    Queue.RunPushes([], capacity, xs);
    Queue.FifoRoundTrip(capacity, xs);
    Queue.RunPops(xs, capacity, |xs|);
  }

  /** The overwrite and saturation laws on the ring: after at least
      `capacity` pushes into a new FIFO it is full, `capacity` pops return
      the last `capacity` bytes pushed in push order, and one more pop
      returns zero on the then empty FIFO. */
  lemma RingKeepsNewest(capacity: nat, xs: seq<uint8>)
    requires 0 < capacity <= |xs|
    ensures IsFull(RunRing(New(capacity), Queue.Pushes(xs)).0)
    ensures var t := RunRing(New(capacity), Queue.Pushes(xs) + Queue.Pops(capacity + 1));
            t.1 == xs[|xs| - capacity..] + [0] && IsEmpty(t.0)
  {
    var pushes, pops := Queue.Pushes(xs), Queue.Pops(capacity + 1);
    RunRefines(New(capacity), pushes);
    RunRefines(New(capacity), pushes + pops);
    Queue.RunAppend([], capacity, pushes, pops);
    Queue.RunPushes([], capacity, xs);
    Queue.OverwriteKeepsNewest(capacity, xs);
    Queue.RunPops(xs[|xs| - capacity..], capacity, capacity + 1);
  }

  /** Capacity 4: pushing 10, 20, 30, 40 fills the FIFO; pushing 50 keeps it
      full and drops 10; four pops yield 20, 30, 40, 50, and a fifth pop on
      the now empty FIFO yields 0 and leaves it empty. */
  lemma OverwriteScenario()
    ensures IsFull(RunRing(New(4), Queue.Pushes([10, 20, 30, 40])).0)
    ensures IsFull(RunRing(New(4), Queue.Pushes([10, 20, 30, 40, 50])).0)
    ensures var t := RunRing(New(4), Queue.Pushes([10, 20, 30, 40, 50]) + Queue.Pops(5));
            t.1 == [20, 30, 40, 50, 0] && IsEmpty(t.0)
  {
    var xs: seq<uint8> := [10, 20, 30, 40, 50];
    RingKeepsNewest(4, xs[..4]);
    assert xs[..4] == [10, 20, 30, 40];
    RingKeepsNewest(4, xs);
    assert xs[1..] == [20, 30, 40, 50];
  }

  /** The initial bytes of the storage are never observed: two FIFOs that
      differ only in what their storage held when they were created return
      the same bytes for every sequence of calls. */
  lemma StorageUnobservable(s1: seq<uint8>, s2: seq<uint8>, ops: seq<Queue.Op>)
    requires 0 < |s1| == |s2|
    ensures RunRing(Ring(s1, 0, 0, true, false), ops).1 == RunRing(Ring(s2, 0, 0, true, false), ops).1
  {
    RunRefines(Ring(s1, 0, 0, true, false), ops);
    RunRefines(Ring(s2, 0, 0, true, false), ops);
  }
}
