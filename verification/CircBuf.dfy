/** The byte ring buffer of circbuf. */
module CircBuf {
  import opened Bits
  import opened Numbers
  import opened FixedPoint

  type Byte = x: int | 0 <= x < 0x100

  // The structure's fields, with the bytes its buffer pointer leads to.
  datatype State = State(data: seq<Byte>, head: U16, tail: U16, size: U16, maxSize: U16, isFull: bool)

  // The caller's part: a buffer of at least maxSize bytes, and at least one.
  predicate Usable(s: State) {
    1 <= s.maxSize <= |s.data| && s.head < s.maxSize && s.tail < s.maxSize
  }

  // What every legal run keeps.
  predicate Consistent(s: State) {
    && Usable(s)
    && s.size <= s.maxSize
    && (s.isFull <==> s.size == s.maxSize)
    && s.head == Around(s.tail + s.size, s.maxSize)
  }

  function Around(x: nat, m: nat): int { if x < m then x else x - m }

  // The queue the buffer stands for, oldest byte first.
  function Contents(s: State): (q: seq<Byte>)
    requires Consistent(s)
    ensures |q| == s.size
  {
    seq(s.size, i requires 0 <= i < s.size => s.data[Around(s.tail + i, s.maxSize)])
  }

  // ---- The operations on values, field by field ----

  function Init(data: seq<Byte>, maxSize: U16): State { State(data, 0, 0, 0, maxSize, false) }

  function Pushed(s: State, element: Byte): (State, bool)
    requires Usable(s)
  {
    if s.isFull then (s, false)
    else
      var head := (s.head + 1) % 0x1_0000;
      var size := (s.size + 1) % 0x1_0000;
      (s.(data := s.data[s.head := element], head := if head >= s.maxSize then 0 else head,
          size := size, isFull := size >= s.maxSize), true)
  }

  function Popped(s: State): (State, Byte)
    requires Usable(s)
  {
    var tail := (s.tail + 1) % 0x1_0000;
    (s.(size := (s.size - 1) % 0x1_0000, isFull := false, tail := if tail >= s.maxSize then 0 else tail),
     s.data[s.tail])
  }

  function Peeked(s: State): Byte
    requires Usable(s)
  {
    s.data[s.head]
  }

  // ---- One step against a bounded FIFO ----

  lemma InitEmpty(data: seq<Byte>, maxSize: U16)
    requires 1 <= maxSize <= |data|
    ensures Consistent(Init(data, maxSize)) && Contents(Init(data, maxSize)) == []
  {
  }

  /** A push is accepted exactly when there is room, appends, and otherwise changes nothing. */
  lemma PushIsEnqueue(s: State, e: Byte)
    requires Consistent(s)
    ensures var (s', ok) := Pushed(s, e);
      && Consistent(s') && s'.maxSize == s.maxSize
      && (ok <==> |Contents(s)| < s.maxSize)
      && (if ok then Contents(s') == Contents(s) + [e] else s' == s)
  {
    var (s', ok) := Pushed(s, e);
    if ok {
      forall i | 0 <= i < s'.size ensures Contents(s')[i] == (Contents(s) + [e])[i] {
        if i < s.size { assert Around(s.tail + i, s.maxSize) != s.head; }
      }
    }
  }

  /** A pop of a non-empty buffer removes and returns the oldest byte. */
  lemma PopIsDequeue(s: State)
    requires Consistent(s) && 0 < s.size
    ensures var (s', e) := Popped(s);
      && Consistent(s') && s'.maxSize == s.maxSize
      && Contents(s) == [e] + Contents(s')
  {
    var (s', e) := Popped(s);
    forall i | 0 <= i < s.size ensures Contents(s)[i] == ([e] + Contents(s'))[i] {
      if i == 0 {
        assert Around(s.tail + 0, s.maxSize) == s.tail;
      } else {
        assert Around(s.tail + i, s.maxSize) == Around(s'.tail + (i - 1), s.maxSize);
        assert Contents(s)[i] == Contents(s')[i - 1];
      }
    }
    assert Contents(s) == [e] + Contents(s');
  }

  /** Pop has no guard of its own: it keeps the buffer consistent exactly when it was not
    * empty, an empty one being left with size 65535. */
  lemma PopConsistentIff(s: State)
    requires Consistent(s)
    ensures Consistent(Popped(s).0) <==> 0 < s.size
  {
    if 0 < s.size { PopIsDequeue(s); }
  }

  // ---- The class ----

  class CircBuf {
    var buffer: array<Byte>
    var head: U16
    var tail: U16
    var size: U16
    var maxSize: U16
    var isFull: bool

    function View(): State
      reads this, buffer
    {
      State(buffer[..], head, tail, size, maxSize, isFull)
    }

    constructor (buf: array<Byte>, max: U16)
      ensures buffer == buf && View() == State(buf[..], 0, 0, 0, max, false) == Init(buf[..], max)
      ensures 1 <= max <= buf.Length ==> Consistent(View()) && Contents(View()) == []
    {
      buffer := buf;
      maxSize := max;
      head := 0;
      tail := 0;
      size := 0;
      isFull := false;
    }

    method Push(element: Byte) returns (ok: bool)
      requires Usable(View())
      modifies this, buffer
      ensures buffer == old(buffer) && (View(), ok) == Pushed(old(View()), element)
      ensures ok == !old(isFull) && (!ok ==> View() == old(View()))
      ensures ok ==>
        && buffer[..] == old(buffer[..])[old(head) := element]
        && head == (if old(head) + 1 < maxSize then old(head) + 1 else 0)
        && size == (old(size) + 1) % 0x1_0000 && isFull == (size >= maxSize)
        && tail == old(tail) && maxSize == old(maxSize)
      ensures old(Consistent(View())) ==>
        && Consistent(View()) && (ok <==> |old(Contents(View()))| < maxSize)
        && Contents(View()) == old(Contents(View())) + if ok then [element] else []
    {
      if Consistent(View()) { PushIsEnqueue(View(), element); }
      if isFull { return false; }
      buffer[head] := element;
      head := (head + 1) % 0x1_0000;
      if head >= maxSize { head := 0; }
      size := (size + 1) % 0x1_0000;
      if size >= maxSize { isFull := true; }
      return true;
    }

    method Pop() returns (element: Byte)
      requires Usable(View())
      modifies this
      ensures buffer == old(buffer) && (View(), element) == Popped(old(View()))
      ensures element == old(buffer[tail]) && buffer[..] == old(buffer[..])
      ensures tail == (if old(tail) + 1 < maxSize then old(tail) + 1 else 0)
      ensures size == (if old(size) == 0 then 0xFFFF else old(size) - 1) && !isFull
      ensures head == old(head) && maxSize == old(maxSize)
      ensures old(Consistent(View()) && 0 < size)
        ==> Consistent(View()) && old(Contents(View())) == [element] + Contents(View())
    {
      if Consistent(View()) && 0 < size { PopIsDequeue(View()); }
      element := buffer[tail];
      size := (size - 1) % 0x1_0000;
      isFull := false;
      tail := (tail + 1) % 0x1_0000;
      if tail >= maxSize { tail := 0; }
    }

    method Peek() returns (element: Byte)
      requires Usable(View())
      ensures element == buffer[head] == Peeked(View())
      ensures Consistent(View()) && isFull ==> element == Contents(View())[0]
    {
      if Consistent(View()) && isFull { PeekSeesNextPopIff(View()); }
      return buffer[head];
    }

    method GetSize() returns (n: U16)
      ensures n == size && (Consistent(View()) ==> n == |Contents(View())|)
    {
      return size;
    }

    method IsFull() returns (b: bool)
      ensures b == isFull && (Consistent(View()) ==> (b <==> |Contents(View())| == maxSize))
    {
      return isFull;
    }
  }

  // ---- Whole runs ----

  datatype Op = PushOp(element: Byte) | PopOp

  // The state reached, the bytes accepted by pushes, the bytes returned by pops.
  datatype Trace = Trace(state: State, accepted: seq<Byte>, popped: seq<Byte>)

  function Step(t: Trace, op: Op): Trace
    requires Usable(t.state)
  {
    match op
    case PushOp(e) =>
      var (s, ok) := Pushed(t.state, e);
      Trace(s, if ok then t.accepted + [e] else t.accepted, t.popped)
    case PopOp =>
      var (s, e) := Popped(t.state);
      Trace(s, t.accepted, t.popped + [e])
  }

  function Run(start: State, ops: seq<Op>): (t: Trace)
    requires Usable(start)
    ensures Usable(t.state) && t.state.maxSize == start.maxSize
  {
    if ops == [] then Trace(start, [], [])
    else Step(Run(start, ops[..|ops| - 1]), ops[|ops| - 1])
  }

  // Pushes are always legal; pops are when something is there.
  predicate Legal(start: State, ops: seq<Op>)
    requires Usable(start)
  {
    ops == [] ||
    var pre := ops[..|ops| - 1];
    Legal(start, pre) && (ops[|ops| - 1].PopOp? ==> 0 < Run(start, pre).state.size)
  }

  // The bounded FIFO the buffer is meant to be.
  datatype Fifo = Fifo(queue: seq<Byte>, accepted: seq<Byte>, popped: seq<Byte>)

  function FifoStep(f: Fifo, capacity: nat, op: Op): Fifo {
    match op
    case PushOp(e) =>
      if |f.queue| < capacity then Fifo(f.queue + [e], f.accepted + [e], f.popped) else f
    case PopOp =>
      if f.queue == [] then f else Fifo(f.queue[1..], f.accepted, f.popped + [f.queue[0]])
  }

  function FifoRun(capacity: nat, ops: seq<Op>): Fifo {
    if ops == [] then Fifo([], [], [])
    else FifoStep(FifoRun(capacity, ops[..|ops| - 1]), capacity, ops[|ops| - 1])
  }

  /** Over every legal run the buffer and the bounded FIFO agree on what is queued, on which
    * pushes were accepted and on what every pop returned. */
  lemma {:induction false} RunRefinesFifo(data: seq<Byte>, max: U16, ops: seq<Op>)
    requires 1 <= max <= |data| && Legal(Init(data, max), ops)
    ensures var t := Run(Init(data, max), ops);
      Consistent(t.state) && Fifo(Contents(t.state), t.accepted, t.popped) == FifoRun(max, ops)
  {
    if ops == [] {
      InitEmpty(data, max);
    } else {
      var pre, op := ops[..|ops| - 1], ops[|ops| - 1];
      RunRefinesFifo(data, max, pre);
      var t := Run(Init(data, max), pre);
      match op
      case PushOp(e) => PushIsEnqueue(t.state, e);
      case PopOp => PopIsDequeue(t.state);
    }
  }

  /** Nothing is lost, duplicated or reordered: the accepted bytes are the popped ones followed
    * by those still in the buffer. */
  lemma {:induction false} Conservation(data: seq<Byte>, max: U16, ops: seq<Op>)
    requires 1 <= max <= |data| && Legal(Init(data, max), ops)
    ensures var t := Run(Init(data, max), ops);
      Consistent(t.state) && t.accepted == t.popped + Contents(t.state)
  {
    RunRefinesFifo(data, max, ops);
    FifoConserves(max, ops);
  }

  lemma {:induction false} FifoConserves(capacity: nat, ops: seq<Op>)
    ensures var f := FifoRun(capacity, ops); f.accepted == f.popped + f.queue && |f.queue| <= capacity
  {
    if ops == [] {
    } else {
      FifoConserves(capacity, ops[..|ops| - 1]);
    }
  }

  // ---- Peek as a delay line ----

  predicate SlotHolds(s: State, k: nat, e: Byte)
    requires Usable(s)
  {
    0 <= k % s.maxSize < |s.data| && s.data[k % s.maxSize] == e
  }

  // The head counts accepted bytes and the last maxSize of them are still in the data.
  ghost predicate Recent(s: State, accepted: seq<Byte>)
    requires Usable(s)
  {
    && s.head == |accepted| % s.maxSize
    && (forall k :: 0 <= k < |accepted| && |accepted| - s.maxSize <= k ==> SlotHolds(s, k, accepted[k]))
  }

  lemma ModSuccessor(n: nat, m: nat)
    requires 0 < m
    ensures 0 <= n % m < m && (n + 1) % m == if n % m + 1 == m then 0 else n % m + 1
  {
    var q, r := n / m, n % m;
    assert n == q * m + r;
    if r + 1 == m { DivModUnique(n + 1, m, q + 1, 0); } else { DivModUnique(n + 1, m, q, r + 1); }
  }

  lemma NearbyModsDiffer(k: nat, n: nat, m: nat)
    requires k < n < k + m
    ensures k % m != n % m
  {
    ModEqualIff(k, n, m);
    DivModUnique(n - k, m, 0, n - k);
  }

  // Pops, even of an empty buffer, touch neither the head nor the data.
  lemma {:induction false} RunKeepsRecent(data: seq<Byte>, max: U16, ops: seq<Op>)
    requires 1 <= max <= |data|
    ensures var t := Run(Init(data, max), ops); Recent(t.state, t.accepted)
  {
    if ops == [] {
      DivModUnique(0, max, 0, 0);
    } else {
      RunKeepsRecent(data, max, ops[..|ops| - 1]);
      var t := Run(Init(data, max), ops[..|ops| - 1]);
      match ops[|ops| - 1]
      case PushOp(e) => if !t.state.isFull { PushKeepsRecent(t.state, t.accepted, e); }
      case PopOp => assert forall k: nat, e :: SlotHolds(t.state, k, e) ==> SlotHolds(Popped(t.state).0, k, e);
    }
  }

  // The new byte does not land on one of the maxSize - 1 before it.
  lemma PushKeepsSlot(s: State, e: Byte, n: nat, k: nat, b: Byte)
    requires Usable(s) && !s.isFull && s.head == n % s.maxSize && k < n < k + s.maxSize
    requires SlotHolds(s, k, b)
    ensures SlotHolds(Pushed(s, e).0, k, b)
  {
    NearbyModsDiffer(k, n, s.maxSize);
  }

  lemma PushKeepsRecent(s: State, accepted: seq<Byte>, e: Byte)
    requires Usable(s) && Recent(s, accepted) && !s.isFull
    ensures Recent(Pushed(s, e).0, accepted + [e])
  {
    var s', all, n, m := Pushed(s, e).0, accepted + [e], |accepted|, s.maxSize;
    ModSuccessor(n, m);
    forall k | 0 <= k < n + 1 && n + 1 - m <= k
      ensures SlotHolds(s', k, all[k])
    {
      if k < n {
        assert SlotHolds(s, k, accepted[k]);
        PushKeepsSlot(s, e, n, k, accepted[k]);
      }
    }
  }

  /** Peek reads the head: once maxSize bytes have been accepted, and whatever was popped in
    * between, it returns the byte accepted maxSize pushes ago. */
  lemma PeekIsDelayLine(data: seq<Byte>, max: U16, ops: seq<Op>)
    requires 1 <= max <= |data|
    ensures var t := Run(Init(data, max), ops);
      max <= |t.accepted| ==> Peeked(t.state) == t.accepted[|t.accepted| - max]
  {
    RunKeepsRecent(data, max, ops);
    var t := Run(Init(data, max), ops);
    var n := |t.accepted|;
    if max <= n {
      ModEqualIff(n - max, n, max);
      DivModUnique(max, max, 1, 0);
      assert SlotHolds(t.state, n - max, t.accepted[n - max]);
    }
  }

  // With these indices peek returns what the next pop would, whatever the bytes are.
  ghost predicate PeekIsNextPop(s: State)
    requires Usable(s)
  {
    forall data: seq<Byte> | |data| == |s.data| ::
      Peeked(s.(data := data)) == Popped(s.(data := data)).1
  }

  /** So it is sure to be the byte the next pop returns exactly when the buffer is full. */
  lemma PeekSeesNextPopIff(s: State)
    requires Consistent(s) && 0 < s.size
    ensures PeekIsNextPop(s) <==> s.isFull
    ensures s.isFull ==> Peeked(s) == Popped(s).1 == Contents(s)[0]
  {
    assert Around(s.tail + 0, s.maxSize) == s.tail;
    assert s.head == s.tail <==> s.isFull;
    if !s.isFull {
      var data: seq<Byte> := seq(|s.data|, i => if i == s.head then 1 else 0);
      assert Peeked(s.(data := data)) != Popped(s.(data := data)).1;
    }
  }
}
