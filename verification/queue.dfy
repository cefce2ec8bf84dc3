/**
 The abstract behaviour of the FIFO: its contents as a plain sequence of
 bytes, oldest first, bounded by a capacity. A push into a full queue drops
 the oldest byte; a pop from an empty queue yields the zero byte. The ring
 representation in module RingBuffer is proved to implement exactly this.
 */
module Queue {
  import opened Bytes

  /** The last `n` elements of `s` (all of `s` when it is shorter). */
  function Last<T>(s: seq<T>, n: nat): (r: seq<T>)
    ensures |r| == if |s| <= n then |s| else n
  {
    if |s| <= n then s else s[|s| - n..]
  }

  /** The contents after pushing `b` at the tail of `q`, a queue that holds
      at most `capacity` bytes. */
  function Push(q: seq<uint8>, capacity: nat, b: uint8): (q': seq<uint8>)
    requires 0 < capacity && |q| <= capacity
    ensures 0 < |q'| <= capacity && q'[|q'| - 1] == b
    ensures q' == Last(q + [b], capacity)
  {
    if |q| == capacity then q[1..] + [b] else q + [b]
  }

  /** Pops the head of `q`: the byte pushed earliest and what remains; the
      zero byte and `q` itself when `q` is empty. */
  function Pop(q: seq<uint8>): (r: (uint8, seq<uint8>))
    ensures q == [] ==> r.0 == 0 && r.1 == []
    ensures q != [] ==> [r.0] + r.1 == q
  {
    if |q| == 0 then (0, q) else (q[0], q[1..])
  }

  /** Pushes every byte of `xs` in order. */
  function PushAll(q: seq<uint8>, capacity: nat, xs: seq<uint8>): (held: seq<uint8>)
    requires 0 < capacity && |q| <= capacity
    decreases |xs|
  {
    if |xs| == 0 then q
    else
      var q' := Push(q, capacity, xs[0]);
      PushAll(q', capacity, xs[1..])
  }

  /** Pops `n` times in a row; the bytes returned in order, and what remains. */
  function PopAll(q: seq<uint8>, n: nat): (p: (seq<uint8>, seq<uint8>))
  {
    if n == 0 then ([], q)
    else
      var (b, q') := Pop(q);
      var (outs, rest) := PopAll(q', n - 1);
      ([b] + outs, rest)
  }

  /** `n` zero bytes. */
  function Zeros(n: nat): (r: seq<uint8>)
    ensures |r| == n && forall i :: 0 <= i < n ==> r[i] == 0
  {
    seq(n, _ => 0)
  }

  /** Whatever was pushed so far, the queue holds the most recent bytes in
      push order, as many as fit. */
  lemma {:induction false} PushAllKeepsLast(q: seq<uint8>, capacity: nat, xs: seq<uint8>)
    requires 0 < capacity && |q| <= capacity
    ensures PushAll(q, capacity, xs) == Last(q + xs, capacity)
    decreases |xs|
  {
    if |xs| > 0 {
      var q' := Push(q, capacity, xs[0]);
      assert PushAll(q, capacity, xs) == PushAll(q', capacity, xs[1..]);
      PushAllKeepsLast(q', capacity, xs[1..]);
      LastOfLast(q + [xs[0]], xs[1..], capacity);
      ConcatAssoc(q, [xs[0]], xs[1..]);
      assert [xs[0]] + xs[1..] == xs;
    }
  }

  /** Trimming before appending more does not change the final window. */
  lemma LastOfLast<T>(s: seq<T>, t: seq<T>, n: nat)
    ensures Last(Last(s, n) + t, n) == Last(s + t, n)
  {
    if |s| > n {
      var w := s[|s| - n..];
      assert s + t == s[..|s| - n] + (w + t);
    }
  }

  /** Popping `n <= |q|` times yields the first `n` bytes in order and leaves
      the rest; popping more yields zero bytes once the queue is empty. */
  lemma {:induction false} PopAllDrains(q: seq<uint8>, n: nat)
    ensures n <= |q| ==> PopAll(q, n) == (q[..n], q[n..])
    ensures n > |q| ==> PopAll(q, n) == (q + Zeros(n - |q|), [])
  {
    if n > 0 {
      PopAllDrains(Pop(q).1, n - 1);
      if |q| == 0 {
        assert PopAll(q, n - 1).0 == Zeros(n - 1) && PopAll(q, n - 1).1 == [];
        assert q + Zeros(n) == [0] + Zeros(n - 1);
      } else if n <= |q| {
        assert [q[0]] + q[1..][..n - 1] == q[..n];
      } else {
        assert [q[0]] + (q[1..] + Zeros(n - |q|)) == q + Zeros(n - |q|);
      }
    }
  }

  /** The FIFO law: up to `capacity` bytes pushed into an empty queue come out
      again in the order they went in, and the queue is then empty. */
  lemma FifoRoundTrip(capacity: nat, xs: seq<uint8>)
    requires 0 < capacity && |xs| <= capacity
    ensures PushAll([], capacity, xs) == xs
    ensures PopAll(PushAll([], capacity, xs), |xs|) == (xs, [])
  {
    PushAllKeepsLast([], capacity, xs);
    assert [] + xs == xs;
    DrainWhole(xs);
  }

  /** The overwrite law: after `capacity + k` pushes into an empty queue,
      `capacity` pops yield exactly the last `capacity` bytes pushed, in push
      order, and a further pop yields the zero byte. */
  lemma OverwriteKeepsNewest(capacity: nat, xs: seq<uint8>)
    requires 0 < capacity <= |xs|
    ensures PushAll([], capacity, xs) == xs[|xs| - capacity..]
    ensures PopAll(PushAll([], capacity, xs), capacity) == (xs[|xs| - capacity..], [])
    ensures PopAll(PushAll([], capacity, xs), capacity + 1) == (xs[|xs| - capacity..] + [0], [])
  {
    var w := xs[|xs| - capacity..];
    NewestSurvive(capacity, xs);
    DrainWhole(w);
  }

  lemma NewestSurvive(capacity: nat, xs: seq<uint8>)
    requires 0 < capacity <= |xs|
    ensures PushAll([], capacity, xs) == xs[|xs| - capacity..]
  {
    PushAllKeepsLast([], capacity, xs);
    assert [] + xs == xs;
  }

  lemma DrainWhole(w: seq<uint8>)
    ensures PopAll(w, |w|) == (w, [])
    ensures PopAll(w, |w| + 1) == (w + [0], [])
  {
    PopAllDrains(w, |w|);
    assert w[..|w|] == w && w[|w|..] == [];
    PopAllDrains(w, |w| + 1);
    assert Zeros(1) == [0];
  }

  /** The saturation law: from empty, the queue is full exactly once
      `capacity` bytes have been pushed, and stays full under further pushes. */
  lemma Saturation(capacity: nat, xs: seq<uint8>)
    requires 0 < capacity
    ensures |PushAll([], capacity, xs)| == if |xs| < capacity then |xs| else capacity
    ensures |PushAll([], capacity, xs)| == capacity <==> |xs| >= capacity
  {
    PushAllKeepsLast([], capacity, xs);
    assert [] + xs == xs;
  }

  /** One call on the FIFO, as issued by a producer, a consumer or the
      application resetting it. */
  datatype Op = PushOp(b: uint8) | PopOp | ClearOp

  /** The bytes of the push operations in `ops`, in order. */
  function Pushed(ops: seq<Op>): (xs: seq<uint8>)
  {
    if |ops| == 0 then []
    else (if ops[0].PushOp? then [ops[0].b] else []) + Pushed(ops[1..])
  }

  /** The outcome of a sequence of calls: the final contents, the value every
      pop returned, and every byte that left the queue, whether popped,
      discarded by a push into a full queue or discarded by a clear, in the
      order it left. */
  datatype Trace = Trace(contents: seq<uint8>, outputs: seq<uint8>, departed: seq<uint8>)

  function Run(q: seq<uint8>, capacity: nat, ops: seq<Op>): (t: Trace)
    requires 0 < capacity && |q| <= capacity
    ensures |t.contents| <= capacity
    decreases |ops|
  {
    if |ops| == 0 then Trace(q, [], [])
    else if ops[0].PushOp? then
      var t := Run(Push(q, capacity, ops[0].b), capacity, ops[1..]);
      var lost := if |q| == capacity then [q[0]] else [];
      Trace(t.contents, t.outputs, lost + t.departed)
    else if ops[0].ClearOp? then
      var t := Run([], capacity, ops[1..]);
      Trace(t.contents, t.outputs, q + t.departed)
    else
      var popped := Pop(q);
      var t := Run(popped.1, capacity, ops[1..]);
      var left := if |q| == 0 then [] else [popped.0];
      Trace(t.contents, [popped.0] + t.outputs, left + t.departed)
  }

  /** First in, first out: bytes leave the queue (popped, overwritten or
      cleared) in exactly the order they were pushed, and what is still held
      is the remainder of that order. No byte is duplicated, reordered or
      invented. */
  lemma {:induction false} RunPreservesOrder(q: seq<uint8>, capacity: nat, ops: seq<Op>)
    requires 0 < capacity && |q| <= capacity
    ensures Departs(q, capacity, ops)
    decreases |ops|
  {
    if |ops| > 0 {
      if ops[0].PushOp? {
        RunPreservesOrder(Push(q, capacity, ops[0].b), capacity, ops[1..]);
        PushStepDeparts(q, capacity, ops);
      } else if ops[0].ClearOp? {
        RunPreservesOrder([], capacity, ops[1..]);
        ClearStepDeparts(q, capacity, ops);
      } else {
        RunPreservesOrder(Pop(q).1, capacity, ops[1..]);
        PopStepDeparts(q, capacity, ops);
      }
    }
  }

  /** Bytes that left the head, then bytes still held, spell out the initial
      contents followed by every byte pushed. */
  ghost predicate Departs(q: seq<uint8>, capacity: nat, ops: seq<Op>)
    requires 0 < capacity && |q| <= capacity
  {
    Run(q, capacity, ops).departed + Run(q, capacity, ops).contents == q + Pushed(ops)
  }

  lemma PushStepDeparts(q: seq<uint8>, capacity: nat, ops: seq<Op>)
    requires 0 < capacity && |q| <= capacity && |ops| > 0 && ops[0].PushOp?
    requires Departs(Push(q, capacity, ops[0].b), capacity, ops[1..])
    ensures Departs(q, capacity, ops)
  {
    var b := ops[0].b;
    var q' := Push(q, capacity, b);
    var t := Run(q', capacity, ops[1..]);
    var lost := if |q| == capacity then [q[0]] else [];
    var rest := Pushed(ops[1..]);
    assert Run(q, capacity, ops).departed == lost + t.departed;
    assert Run(q, capacity, ops).contents == t.contents;
    assert Pushed(ops) == [b] + rest;
    assert lost + q' == q + [b];
    ConcatAssoc(lost, t.departed, t.contents);
    ConcatAssoc(lost, q', rest);
    ConcatAssoc(q, [b], rest);
  }

  lemma PopStepDeparts(q: seq<uint8>, capacity: nat, ops: seq<Op>)
    requires 0 < capacity && |q| <= capacity && |ops| > 0 && ops[0].PopOp?
    requires Departs(Pop(q).1, capacity, ops[1..])
    ensures Departs(q, capacity, ops)
  {
    var q' := Pop(q).1;
    var t := Run(q', capacity, ops[1..]);
    var left := if |q| == 0 then [] else [q[0]];
    var rest := Pushed(ops[1..]);
    assert Run(q, capacity, ops).departed == left + t.departed;
    assert Run(q, capacity, ops).contents == t.contents;
    assert Pushed(ops) == rest;
    assert left + q' == q;
    ConcatAssoc(left, t.departed, t.contents);
    ConcatAssoc(left, q', rest);
  }

  lemma ClearStepDeparts(q: seq<uint8>, capacity: nat, ops: seq<Op>)
    requires 0 < capacity && |q| <= capacity && |ops| > 0 && ops[0].ClearOp?
    requires Departs([], capacity, ops[1..])
    ensures Departs(q, capacity, ops)
  {
    var t := Run([], capacity, ops[1..]);
    var rest := Pushed(ops[1..]);
    assert Run(q, capacity, ops).departed == q + t.departed;
    assert Run(q, capacity, ops).contents == t.contents;
    assert Pushed(ops) == rest;
    assert t.departed + t.contents == rest;
    ConcatAssoc(q, t.departed, t.contents);
  }

  /** No call of `ops` loses a byte or meets an empty queue: every push finds
      room, every pop finds a byte, and every clear finds nothing to discard. */
  ghost predicate Lossless(q: seq<uint8>, capacity: nat, ops: seq<Op>)
    requires 0 < capacity && |q| <= capacity
    decreases |ops|
  {
    if |ops| == 0 then true
    else if ops[0].PushOp? then |q| < capacity && Lossless(Push(q, capacity, ops[0].b), capacity, ops[1..])
    else if ops[0].ClearOp? then |q| == 0 && Lossless(q, capacity, ops[1..])
    else |q| > 0 && Lossless(Pop(q).1, capacity, ops[1..])
  }

  /** When no byte is lost and no pop meets an empty queue, the pops return
      exactly the initial contents followed by the pushed bytes, in push
      order, up to what is still held: a byte is popped only after every byte
      pushed before it. */
  lemma {:induction false} LosslessDelivery(q: seq<uint8>, capacity: nat, ops: seq<Op>)
    requires 0 < capacity && |q| <= capacity
    requires Lossless(q, capacity, ops)
    ensures Run(q, capacity, ops).outputs == Run(q, capacity, ops).departed
    ensures Run(q, capacity, ops).outputs + Run(q, capacity, ops).contents == q + Pushed(ops)
    decreases |ops|
  {
    if |ops| > 0 {
      if ops[0].PushOp? {
        LosslessDelivery(Push(q, capacity, ops[0].b), capacity, ops[1..]);
      } else if ops[0].ClearOp? {
        LosslessDelivery(q, capacity, ops[1..]);
        assert q + Run(q, capacity, ops[1..]).departed == Run(q, capacity, ops[1..]).departed;
      } else {
        LosslessDelivery(Pop(q).1, capacity, ops[1..]);
      }
    }
    RunPreservesOrder(q, capacity, ops);
  }

  lemma ConcatAssoc<T>(a: seq<T>, b: seq<T>, c: seq<T>)
    ensures (a + b) + c == a + (b + c)
  {
  }

  /** The calls that push each byte of `xs` in order. */
  function Pushes(xs: seq<uint8>): (ops: seq<Op>)
    ensures Pushed(ops) == xs
    decreases |xs|
  {
    if |xs| == 0 then [] else [PushOp(xs[0])] + Pushes(xs[1..])
  }

  /** `n` pop calls. */
  function Pops(n: nat): (ops: seq<Op>)
    ensures Pushed(ops) == []
  {
    if n == 0 then [] else [PopOp] + Pops(n - 1)
  }

  /** Running two sequences of calls one after the other is running their
      concatenation. */
  lemma {:induction false} RunAppend(q: seq<uint8>, capacity: nat, a: seq<Op>, b: seq<Op>)
    requires 0 < capacity && |q| <= capacity
    ensures var t := Run(q, capacity, a);
            var u := Run(t.contents, capacity, b);
            Run(q, capacity, a + b) == Trace(u.contents, t.outputs + u.outputs, t.departed + u.departed)
    decreases |a|
  {
    if |a| == 0 {
      assert a + b == b;
    } else {
      assert (a + b)[0] == a[0] && (a + b)[1..] == a[1..] + b;
      var q' := if a[0].PushOp? then Push(q, capacity, a[0].b)
                else if a[0].ClearOp? then [] else Pop(q).1;
      RunAppend(q', capacity, a[1..], b);
      var t := Run(q', capacity, a[1..]);
      var u := Run(t.contents, capacity, b);
      if a[0].PushOp? {
        var lost := if |q| == capacity then [q[0]] else [];
        ConcatAssoc(lost, t.departed, u.departed);
      } else if a[0].ClearOp? {
        ConcatAssoc(q, t.departed, u.departed);
      } else {
        var left := if |q| == 0 then [] else [Pop(q).0];
        ConcatAssoc([Pop(q).0], t.outputs, u.outputs);
        ConcatAssoc(left, t.departed, u.departed);
      }
    }
  }

  /** A run of pushes returns nothing and leaves what `PushAll` leaves. */
  lemma {:induction false} RunPushes(q: seq<uint8>, capacity: nat, xs: seq<uint8>)
    requires 0 < capacity && |q| <= capacity
    ensures Run(q, capacity, Pushes(xs)).contents == PushAll(q, capacity, xs)
    ensures Run(q, capacity, Pushes(xs)).outputs == []
    decreases |xs|
  {
    if |xs| > 0 {
      RunPushes(Push(q, capacity, xs[0]), capacity, xs[1..]);
    }
  }

  /** A run of `n` pops returns and leaves what `PopAll` does. */
  lemma {:induction false} RunPops(q: seq<uint8>, capacity: nat, n: nat)
    requires 0 < capacity && |q| <= capacity
    ensures Run(q, capacity, Pops(n)).contents == PopAll(q, n).1
    ensures Run(q, capacity, Pops(n)).outputs == PopAll(q, n).0
  {
    if n > 0 {
      RunPops(Pop(q).1, capacity, n - 1);
    }
  }
}
