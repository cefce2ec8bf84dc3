# FIFO ring buffer

A model of the `FIFO` class of the FIFO library for Arduino: a fixed-capacity
first-in/first-out buffer of bytes, kept in a ring, that decouples a producer
and a consumer whose byte flows are not synchronised. The object holds a
capacity, a storage block, a head pointer (where the next pop reads), a tail
pointer (where the next push writes) and two flags, `m_empty` and `m_full`,
that tell an empty ring from a full one when head and tail coincide.

The documented policy, all of which is proved:

- a push appends at the tail; a push into a full FIFO discards the oldest
  byte, and the FIFO stays full;
- a pop returns the earliest-pushed byte and removes it; a pop from an empty
  FIFO returns zero and changes nothing;
- `clear` resets head and tail and leaves the FIFO empty and not full;
- `isEmpty` and `isFull` report whether nothing, or `capacity` bytes, are held.

The project has three layers, each proved against the one above it, over a
shared element type.

- `queue.dfy`, module `Queue`: the abstract behaviour. The contents are a
  plain sequence of bytes, oldest first, bounded by the capacity. It also
  holds the laws about runs of pushes, pops and clears: the FIFO round trip,
  the overwrite law, saturation, and the order-preservation law.
- `ring.dfy`, module `RingBuffer`: the representation as a pure datatype. It
  has the storage as a sequence, head and tail as indices in
  `[0, capacity)` advanced with wrap-around (`Next`), and the two flags. The
  invariant `Valid` ties these together, and `Contents` is the abstraction to
  the queue. Every operation keeps `Valid`, and its contract states that it
  acts on the contents exactly as the queue operation does (a clear leaves
  the contents empty). `RunRefines` extends this to any sequence of pushes,
  pops and clears.
- `fifo.dfy`, module `Fifo`: the class `FIFO` over a storage array allocated
  once, with a ghost `contents` sequence. Its `Valid` says the fields spell
  out a valid ring whose contents are `contents`. Each method is proved to
  perform the matching ring operation. `Push` and `Pop` also perform the
  matching queue operation on `contents`, and `Clear` leaves `contents`
  empty.
- `bytes.dfy`, module `Bytes`: the `uint8` element type, standing for the
  Arduino `byte`.

The header declares the operations and documents their behaviour; the
implementation file of the class is not part of this model. The
head/tail/flag updates are therefore reconstructed from the private fields and the documented contract:

- a push writes at the tail, advances the head too when the FIFO was full,
  advances the tail, clears the empty flag, and sets the full flag exactly
  when head meets tail;
- a pop on a non-empty FIFO reads at the head, advances the head, clears the
  full flag, and sets the empty flag exactly when head meets tail.

## Model

| member | source | states |
|---|---|---|
| Queue.Push | src/FIFO.h:59-70 | the pushed byte ends up last, at the tail, and the result holds at most `capacity` bytes: it is the newest `capacity` bytes of the old contents followed by the new byte, so below capacity nothing is lost and at capacity only the head byte is dropped |
| Queue.Pop | src/FIFO.h:72-82 | on a non-empty queue, returns the earliest byte and the remainder, which together rebuild the queue; on an empty queue, returns zero and the empty queue |
| Queue.PushAllKeepsLast | src/FIFO.h:13-16 | after any sequence of pushes, the queue holds the most recent bytes in push order, as many as fit in the capacity |
| Queue.PopAllDrains | src/FIFO.h:17-19 | `n` pops of a queue holding at least `n` bytes return its first `n` bytes in order and leave the rest; further pops on the emptied queue return zero bytes |
| Queue.FifoRoundTrip | src/FIFO.h:59-82 | up to `capacity` bytes pushed into an empty queue are popped back in the same order, and the queue is then empty |
| Queue.OverwriteKeepsNewest | src/FIFO.h:15-16 | after `capacity + k` pushes from empty, `capacity` pops return exactly the last `capacity` bytes pushed, in order, and one more pop returns zero |
| Queue.Saturation | src/FIFO.h:13-16 | from empty, the length after the pushes is the smaller of the number pushed and the capacity, so the queue is full exactly when at least `capacity` bytes were pushed |
| Queue.RunPreservesOrder | src/FIFO.h:9-19 | for any sequence of pushes, pops and clears, take the bytes that left the queue (popped, dropped by a push into a full queue, or discarded by a clear) and then the bytes still held. Together they equal the initial contents followed by every pushed byte, in push order |
| Queue.LosslessDelivery | src/FIFO.h:62-63 | when every push finds room, every pop finds a byte and every clear finds the queue empty, the bytes the pops return, followed by the bytes still held, are exactly the initial contents followed by the pushed bytes: a pushed byte is popped only after every byte pushed before it |
| Queue.RunAppend | src/FIFO.h:26-97 | running one sequence of pushes, pops and clears and then another gives the same contents, returned bytes and departed bytes as running their concatenation |
| Queue.RunPushes | src/FIFO.h:59-70 | a run of push calls returns nothing and leaves the same contents as pushing the bytes one by one |
| Queue.RunPops | src/FIFO.h:72-82 | a run of `n` pop calls returns and leaves the same as popping `n` times in a row |
| RingBuffer.Next | src/FIFO.h:31-32 | advancing a head or tail position wraps from the last slot to the first, and equals advancing by one modulo the capacity |
| RingBuffer.Count | src/FIFO.h:29-34 | the number held is at most the capacity; the tail sits that many slots after the head; it is zero exactly when the empty flag is set and equals the capacity exactly when the full flag is set |
| RingBuffer.New | src/FIFO.h:37-44 | a new FIFO satisfies the representation invariant, has the requested capacity, holds nothing, is empty and is not full |
| RingBuffer.Clear | src/FIFO.h:51-57 | whatever was held, the cleared FIFO has head and tail back at slot 0, satisfies the invariant, holds nothing, is empty and not full, and its storage is not erased |
| RingBuffer.Push | src/FIFO.h:59-70 | a push keeps the representation invariant (head and tail inside the storage, the flags resolving head == tail) and the capacity, and the contents after it are exactly the abstract queue push of the contents before: appended at the tail, with the head byte dropped when full |
| RingBuffer.Pop | src/FIFO.h:72-82 | a pop keeps the representation invariant and the capacity; the byte it returns and the contents it leaves are exactly those of the abstract queue pop (the earliest byte, removed); on an empty FIFO it returns zero and leaves the state unchanged |
| RingBuffer.AdvanceHead | src/FIFO.h:72-82 | on a non-empty ring, moving the head one slot on drops exactly the byte stored at the head, the oldest one, and keeps the invariant |
| RingBuffer.IsEmpty | src/FIFO.h:84-89 | true exactly when the FIFO holds no bytes; a pure query, so it changes nothing |
| RingBuffer.IsFull | src/FIFO.h:91-96 | true exactly when the FIFO holds `capacity` bytes; a pure query, so it changes nothing |
| RingBuffer.RunRing | src/FIFO.h:26-34 | any sequence of pushes, pops and clears keeps the representation invariant and the capacity |
| RingBuffer.RunRefines | src/FIFO.h:26-97 | any sequence of pushes, pops and clears on the ring returns the same bytes and leaves the same contents as on the abstract queue |
| RingBuffer.StorageUnobservable | src/FIFO.h:37-44 | two new FIFOs of equal capacity whose storage initially held different bytes return the same bytes for every sequence of pushes, pops and clears |
| RingBuffer.RingRoundTrip | src/FIFO.h:59-82 | up to `capacity` bytes pushed into a new ring are popped back in push order, and the ring is then empty |
| RingBuffer.RingKeepsNewest | src/FIFO.h:13-19 | after at least `capacity` pushes into a new ring it is full; `capacity` pops then return the last `capacity` bytes pushed, in push order, and one more pop returns zero on the emptied ring |
| RingBuffer.OverwriteScenario | src/FIFO.h:13-19 | capacity 4: pushing 10, 20, 30, 40 fills it; pushing 50 keeps it full; five pops then return 20, 30, 40, 50, 0, and the FIFO is empty |
| Fifo.FIFO.IsEmpty | src/FIFO.h:84-89 | the object's query is true exactly when its contents are empty |
| Fifo.FIFO.IsFull | src/FIFO.h:91-96 | the object's query is true exactly when its contents hold `capacity` bytes |
| Fifo.FIFO.constructor | src/FIFO.h:37-44 | the new object has the requested capacity and fresh storage, satisfies the invariant, holds nothing, and its fields spell out the ring `RingBuffer.New` builds |
| Fifo.FIFO.Clear | src/FIFO.h:51-57 | the invariant is kept, the contents become empty, and the fields become the ring `RingBuffer.Clear` yields from the old fields |
| Fifo.FIFO.Push | src/FIFO.h:59-70 | the invariant is kept, the contents become the abstract queue push of the old contents (appended at the tail, head byte dropped when full), and the fields become the ring `RingBuffer.Push` yields |
| Fifo.FIFO.Pop | src/FIFO.h:72-82 | the invariant is kept; the returned byte and the new contents are those of the abstract queue pop of the old contents (the earliest byte, removed; zero and no change when empty), and the fields become the ring `RingBuffer.Pop` yields |

The constructor and the `Clear`, `Push` and `Pop` methods of class
`Fifo.FIFO` change the object's state, so their contracts are written with
`old` and `modifies`.

## Left out

- Release of the storage by the destructor (src/FIFO.h:49): memory is not
  modelled, so the storage is an array allocated once. The header says only
  that the constructor allocates buffer memory (src/FIFO.h:40), not what that
  memory holds at first. The model fills it with zeros, and
  `RingBuffer.StorageUnobservable` proves that no pop can return those
  initial bytes: whatever the storage held, every sequence of calls returns
  the same bytes.
- Raw pointer arithmetic: head and tail are indices into the storage.
- Virtual dispatch: no subclass exists, so the class is plain.
- The width of `unsigned int`: the capacity is an unbounded natural number.
  Pointer positions never exceed the capacity, so no arithmetic can
  overflow.
- Zero capacity: the header does not document it, and the constructor
  requires a positive capacity.
- Concurrent access from an interrupt handler and the foreground: mutual
  exclusion is the caller's obligation and is not part of the structure.
  Every operation is modelled as atomic.
- The implementation file of the class is not part of this model. The flag
  updates follow the header's fields and documented contract, as described
  above.
