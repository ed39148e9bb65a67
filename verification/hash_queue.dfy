/** The sequential core of `LinkedBlockingHashQueue`: a bounded FIFO queue that
    ignores duplicates, built from an insertion-ordered hash set, a separate
    element count and a fixed capacity.

    Every public operation of the queue runs in one critical section of the
    queue lock, so each is modelled as one atomic transition from a `Queue`
    value to its successor. Waking a waiter on `notFull` or `notEmpty` becomes a
    returned `Signals` flag. A blocking operation whose guard is false returns
    `Wait`: the calling thread suspends and the state does not change. */
module HashQueue {
  import opened Java
  import opened Sequences

  /** Which wait conditions a transition signals; each wakes at most one waiter. */
  datatype Signals = Signals(notFull: bool, notEmpty: bool)

  const NoSignal := Signals(notFull := false, notEmpty := false)

  /** Wake-up policy after a new element went in; c is the count before the increment. */
  function SignalAfterPut(c: int, capacity: int): Signals {
    Signals(notFull := c + 1 < capacity, notEmpty := c == 0)
  }

  /** Wake-up policy after the head was taken; c is the count before the decrement. */
  function SignalAfterTake(c: int, capacity: int): Signals {
    Signals(notFull := c == capacity, notEmpty := c > 1)
  }

  /** The hash set as the sequence of its elements in first-insertion order,
      the `AtomicInteger` count as a plain integer, and the capacity. */
  datatype Queue<E> = Queue(elems: seq<E>, count: int, capacity: int)

  /** What every state reachable with drain sinks whose `add` appends satisfies.
      The count may fall below the set's size (see `Remove`), but never rises
      above it or leaves [0, capacity]. A sink whose `add` throws after the head
      was unlinked leaves the count above the set's size; that is not modelled. */
  predicate Inv<E(==)>(q: Queue<E>) {
    && 1 <= q.capacity <= IntMax
    && Distinct(q.elems)
    && 0 <= q.count <= q.capacity
    && q.count <= |q.elems|
  }

  /** `Inv` with the count agreeing with the size of the set. */
  predicate Consistent<E(==)>(q: Queue<E>) {
    Inv(q) && q.count == |q.elems|
  }

  /** The new state, what the Java method returns, and the signals it sent. */
  datatype Out<E, R> = Out(queue: Queue<E>, result: R, signals: Signals)

  /** One pass of a blocking operation: suspend (state unchanged), or complete. */
  datatype Step<E, R> = Wait | Ready(out: Out<E, R>)

  /** The collection handed to `drainTo`: `null`, the queue itself, or a list
      (whose `add` appends). */
  datatype Sink<E> = NullSink | SelfSink | Collection(items: seq<E>)

  /** What `drainTo` leaves in the sink and the number it returns. */
  datatype Drained<E> = Drained(sink: seq<E>, moved: int)

  /** `new LinkedBlockingHashQueue(capacity)`. */
  function New<E(==)>(capacity: int): (r: Result<Queue<E>>)
    requires IsInt(capacity)
    ensures r.Throws? <==> capacity <= 0
    ensures r.Throws? ==> r.exception == IllegalArgumentException
    ensures r.Ok? ==> Consistent(r.value) && r.value.elems == [] && r.value.capacity == capacity
  {
    if capacity <= 0 then Throws(IllegalArgumentException)
    else Ok(Queue([], 0, capacity))
  }

  /** `new LinkedBlockingHashQueue()`: effectively unbounded. */
  function NewUnbounded<E(==)>(): (q: Queue<E>)
    ensures Consistent(q) && q.elems == [] && q.capacity == IntMax
  {
    New(IntMax).value
  }

  /** `size()`. */
  function Size<E(==)>(q: Queue<E>): (n: int)
    ensures Consistent(q) ==> n == |q.elems|
    ensures Inv(q) ==> 0 <= n <= q.capacity
  {
    q.count
  }

  /** `remainingCapacity()`. */
  function RemainingCapacity<E(==)>(q: Queue<E>): (n: int)
    ensures Inv(q) ==> 0 <= n <= q.capacity
    ensures Consistent(q) ==> n + |q.elems| == q.capacity
  {
    q.capacity - Size(q)
  }

  /** `head()`: the first element the set's iterator yields. */
  function Head<E>(q: Queue<E>): E
    requires |q.elems| > 0
  {
    q.elems[0]
  }

  /** `dequeue()`: unlinks the head from the set; the caller adjusts the count. */
  function Dequeue<E>(q: Queue<E>): (r: (Queue<E>, E))
    requires |q.elems| > 0
    ensures [r.1] + r.0.elems == q.elems
    ensures r.0.count == q.count && r.0.capacity == q.capacity
  {
    (q.(elems := q.elems[1..]), Head(q))
  }

  /** `enqueue(e)`, run only once `put`/`offer` saw room: a duplicate is ignored,
      a new element joins at the tail and is counted. */
  function Enqueue<E(==)>(q: Queue<E>, e: E): (r: (Queue<E>, Signals))
    requires Inv(q) && q.count < q.capacity
    ensures Inv(r.0) && r.0.capacity == q.capacity
    ensures Consistent(q) ==> Consistent(r.0)
    ensures e in q.elems ==> r.0 == q && r.1 == NoSignal
    ensures e !in q.elems ==> r.0.elems == q.elems + [e] && r.0.count == q.count + 1
    ensures e !in q.elems ==>
      && (r.1.notEmpty <==> q.count == 0)
      && (r.1.notFull <==> q.count + 1 < q.capacity)
    ensures e !in q.elems && Consistent(q) ==>
      && (r.1.notEmpty <==> q.elems == [])
      && (r.1.notFull <==> |r.0.elems| < r.0.capacity)
  {
    if e in q.elems then (q, NoSignal)
    else
      DistinctAppend(q.elems, e);
      (Queue(q.elems + [e], q.count + 1, q.capacity), SignalAfterPut(q.count, q.capacity))
  }

  /** `put(e)`: wait while the queue is full, then enqueue. */
  function Put<E(==)>(q: Queue<E>, e: Nullable<E>): (r: Result<Step<E, ()>>)
    requires Inv(q)
    ensures e.Null? <==> r == Throws(NullPointerException)
    ensures e.NonNull? ==> r.Ok? && (r.value.Wait? <==> q.count == q.capacity)
    ensures r.Ok? && r.value.Ready? ==>
      && e.NonNull? && q.count < q.capacity
      && (r.value.out.queue, r.value.out.signals) == Enqueue(q, e.value)
  {
    if e.Null? then Throws(NullPointerException)
    else if Size(q) == q.capacity then Ok(Wait)
    else
      var (q', signals) := Enqueue(q, e.value);
      Ok(Ready(Out(q', (), signals)))
  }

  /** `offer(e)`: enqueue if there is room, reporting whether it did; a
      duplicate is reported as accepted. */
  function Offer<E(==)>(q: Queue<E>, e: Nullable<E>): (r: Result<Out<E, bool>>)
    requires Inv(q)
    ensures e.Null? <==> r == Throws(NullPointerException)
    ensures e.NonNull? ==> r.Ok?
    ensures r.Ok? ==> (r.value.result <==> q.count < q.capacity)
    ensures r.Ok? && !r.value.result ==> r.value.queue == q && r.value.signals == NoSignal
    ensures r.Ok? && r.value.result ==>
      && e.NonNull? && q.count < q.capacity
      && (r.value.queue, r.value.signals) == Enqueue(q, e.value)
  {
    if e.Null? then Throws(NullPointerException)
    else if Size(q) == q.capacity then Ok(Out(q, false, NoSignal))
    else
      var (q', signals) := Enqueue(q, e.value);
      Ok(Out(q', true, signals))
  }

  /** One pass of `offer(e, timeout, unit)` with `nanos` left to wait: give up
      when full and out of time, wait when full, otherwise enqueue. */
  function OfferTimed<E(==)>(q: Queue<E>, e: Nullable<E>, nanos: int): (r: Result<Step<E, bool>>)
    requires Inv(q)
    ensures e.Null? <==> r == Throws(NullPointerException)
    ensures e.NonNull? ==> r.Ok? && (r.value.Wait? <==> q.count == q.capacity && nanos > 0)
    ensures r.Ok? && r.value.Ready? ==> (r.value.out.result <==> q.count < q.capacity)
    ensures r.Ok? && r.value.Ready? && !r.value.out.result ==>
      r.value.out.queue == q && r.value.out.signals == NoSignal
    ensures r.Ok? && r.value.Ready? && r.value.out.result ==>
      && e.NonNull? && q.count < q.capacity
      && (r.value.out.queue, r.value.out.signals) == Enqueue(q, e.value)
  {
    if e.Null? then Throws(NullPointerException)
    else if Size(q) == q.capacity then
      if nanos <= 0 then Ok(Ready(Out(q, false, NoSignal))) else Ok(Wait)
    else
      var (q', signals) := Enqueue(q, e.value);
      Ok(Ready(Out(q', true, signals)))
  }

  /** The common tail of `take` and both `poll`s once the count is positive:
      unlink the head, decrement the count, signal. */
  function TakeHead<E(==)>(q: Queue<E>): (r: Out<E, E>)
    requires Inv(q) && q.count > 0
    ensures r.result == q.elems[0] && r.queue.elems == q.elems[1..]
    ensures r.result !in r.queue.elems
    ensures r.queue.count == q.count - 1 && r.queue.capacity == q.capacity
    ensures Inv(r.queue) && (Consistent(q) ==> Consistent(r.queue))
    ensures r.signals.notFull <==> q.count == q.capacity
    ensures r.signals.notEmpty <==> r.queue.count > 0
  {
    DistinctTail(q.elems);
    var (rest, head) := Dequeue(q);
    Out(rest.(count := q.count - 1), head, SignalAfterTake(q.count, q.capacity))
  }

  /** `take()`: wait while the count is zero, then take the head. */
  function Take<E(==)>(q: Queue<E>): (r: Step<E, E>)
    requires Inv(q)
    ensures r.Wait? <==> q.count == 0
    ensures r.Ready? ==> q.count > 0 && r.out == TakeHead(q)
  {
    if Size(q) == 0 then Wait else Ready(TakeHead(q))
  }

  /** `poll()`: `null` and no change when the count is zero, else the head. */
  function Poll<E(==)>(q: Queue<E>): (r: Out<E, Nullable<E>>)
    requires Inv(q)
    ensures r.result.Null? <==> q.count == 0
    ensures r.result.Null? ==> r.queue == q && r.signals == NoSignal
    ensures r.result.NonNull? ==>
      && q.count > 0
      && r.result.value == TakeHead(q).result
      && r.queue == TakeHead(q).queue
      && r.signals == TakeHead(q).signals
  {
    if Size(q) == 0 then Out(q, Null, NoSignal)
    else
      var t := TakeHead(q);
      Out(t.queue, NonNull(t.result), t.signals)
  }

  /** One pass of `poll(timeout, unit)` with `nanos` left to wait. */
  function PollTimed<E(==)>(q: Queue<E>, nanos: int): (r: Step<E, Nullable<E>>)
    requires Inv(q)
    ensures r.Wait? <==> q.count == 0 && nanos > 0
    ensures r.Ready? ==> r.out == Poll(q)
  {
    if Size(q) == 0 then
      if nanos <= 0 then Ready(Out(q, Null, NoSignal)) else Wait
    else Ready(Poll(q))
  }

  /** `peek()`: the head without removing it, or `null` when the count is zero. */
  function Peek<E(==)>(q: Queue<E>): (r: Nullable<E>)
    requires Inv(q)
    ensures r.Null? <==> q.count == 0
    ensures r.NonNull? ==> q.elems != [] && r.value == q.elems[0]
  {
    if Size(q) == 0 then Null else NonNull(Head(q))
  }

  /** `peek()` answers what the next `poll()` would return. */
  lemma PeekIsNextPoll<E>(q: Queue<E>)
    requires Inv(q)
    ensures Peek(q) == Poll(q).result
    ensures Peek(q).NonNull? ==> Peek(q).value !in Poll(q).queue.elems
  {
  }

  /** k successive polls on a queue holding at least k counted elements:
      the state they leave and the elements they return, in order. */
  function PollAll<E(==)>(q: Queue<E>, k: nat): (r: (Queue<E>, seq<E>))
    requires Inv(q) && k <= q.count
    ensures r.1 == q.elems[..k]
    ensures r.0 == Queue(q.elems[k..], q.count - k, q.capacity)
    ensures Inv(r.0) && (Consistent(q) ==> Consistent(r.0))
    decreases k
  {
    if k == 0 then (q, [])
    else
      var t := TakeHead(q);
      var rest := PollAll(t.queue, k - 1);
      assert q.elems[1..][k - 1..] == q.elems[k..];
      assert q.elems[..k] == [q.elems[0]] + q.elems[1..][..k - 1];
      (rest.0, [t.result] + rest.1)
  }

  /** How many elements `drainTo(c, maxElements)` moves. */
  function DrainCount<E>(q: Queue<E>, maxElements: int): (k: nat)
    requires 0 <= q.count
    ensures k <= q.count
    ensures k == 0 <==> maxElements <= 0 || q.count == 0
    ensures 0 <= maxElements ==> k == Min(maxElements, q.count)
  {
    Max(0, Min(maxElements, q.count))
  }

  /** `drainTo(c, maxElements)`: move up to maxElements of the oldest elements
      to the end of the sink. Returns `min(maxElements, size())`, which is
      negative (with nothing moved) when maxElements is. */
  method DrainTo<E(==)>(q: Queue<E>, sink: Sink<E>, maxElements: int)
    returns (r: Result<Out<E, Drained<E>>>)
    requires Inv(q)
    ensures sink.NullSink? <==> r == Throws(NullPointerException)
    ensures sink.SelfSink? <==> r == Throws(IllegalArgumentException)
    ensures sink.Collection? <==> r.Ok?
    ensures r.Ok? ==> sink.Collection? && r.value.result.moved == Min(maxElements, q.count)
    ensures r.Ok? ==> var k := DrainCount(q, maxElements);
      && r.value.result.sink == sink.items + PollAll(q, k).1
      && r.value.queue == PollAll(q, k).0
      && (r.value.signals.notFull <==> k > 0 && q.count == q.capacity)
      && !r.value.signals.notEmpty
  {
    if sink.NullSink? {
      return Throws(NullPointerException);
    }
    if sink.SelfSink? {
      return Throws(IllegalArgumentException);
    }
    var n := Min(maxElements, Size(q));
    var elems := q.elems;
    var items := sink.items;
    var i := 0;
    while i < n
      invariant 0 <= i <= Max(0, n)
      invariant elems == q.elems[i..]
      invariant items == sink.items + q.elems[..i]
    {
      assert q.elems[..i + 1] == q.elems[..i] + [elems[0]];
      items := items + [elems[0]];
      elems := elems[1..];
      i := i + 1;
    }
    var count := q.count;
    var signals := NoSignal;
    if i > 0 {
      if count == q.capacity {
        signals := Signals(notFull := true, notEmpty := false);
      }
      count := count - i;
    }
    return Ok(Out(Queue(elems, count, q.capacity), Drained(items, n), signals));
  }

  /** `drainTo(c)`: `drainTo(c, capacity)`, which moves every counted element. */
  method DrainAll<E(==)>(q: Queue<E>, sink: Sink<E>) returns (r: Result<Out<E, Drained<E>>>)
    requires Inv(q)
    ensures sink.NullSink? <==> r == Throws(NullPointerException)
    ensures sink.SelfSink? <==> r == Throws(IllegalArgumentException)
    ensures sink.Collection? <==> r.Ok?
    ensures r.Ok? ==>
      && r.value.queue == PollAll(q, q.count).0
      && (r.value.signals.notFull <==> q.count > 0 && q.count == q.capacity)
      && !r.value.signals.notEmpty
    ensures r.Ok? ==>
      && sink.Collection?
      && r.value.result.moved == q.count
      && r.value.result.sink == sink.items + q.elems[..q.count]
      && r.value.queue.count == 0
    ensures r.Ok? && Consistent(q) ==>
      && r.value.queue.elems == []
      && r.value.result.sink == sink.items + q.elems
  {
    r := DrainTo(q, sink, q.capacity);
    if r.Ok? && Consistent(q) {
      assert q.elems[..q.count] == q.elems;
    }
  }

  /** `clear()`: empty the set and zero the count. */
  function Clear<E(==)>(q: Queue<E>): (r: Out<E, ()>)
    requires Inv(q)
    ensures Consistent(r.queue) && r.queue.elems == [] && r.queue.capacity == q.capacity
    ensures r.signals.notFull <==> q.count == q.capacity
    ensures !r.signals.notEmpty
  {
    Out(Queue([], 0, q.capacity), (), Signals(notFull := Size(q) == q.capacity, notEmpty := false))
  }

  /** `contains(o)`: the only check of the count is the unlocked `size() == 0`
      fast path, then set membership. */
  function Contains<E(==)>(q: Queue<E>, o: E): (r: bool)
    requires Inv(q)
    ensures r <==> q.count > 0 && o in q.elems
    ensures Consistent(q) ==> (r <==> o in q.elems)
  {
    if Size(q) == 0 then false else o in q.elems
  }

  /** `remove(o)` as written: when the count is positive it removes o from the
      set if present and decrements the count whether or not o was there. */
  function Remove<E(==)>(q: Queue<E>, o: E): (r: Out<E, bool>)
    requires Inv(q)
    ensures r.result <==> q.count > 0 && o in q.elems
    ensures q.count == 0 ==> r == Out(q, false, NoSignal)
    ensures q.count > 0 ==> r.queue.elems == Without(q.elems, o) && r.queue.count == q.count - 1
    ensures Inv(r.queue) && r.queue.capacity == q.capacity
    ensures (r.signals.notFull <==> q.count == q.capacity) && !r.signals.notEmpty
    ensures Consistent(q) && r.result ==> Consistent(r.queue)
  {
    if Size(q) == 0 then Out(q, false, NoSignal)
    else
      WithoutDistinct(q.elems, o);
      Out(Queue(Without(q.elems, o), q.count - 1, q.capacity), o in q.elems,
          Signals(notFull := q.count == q.capacity, notEmpty := false))
  }

  /** Removing an absent value from a non-empty consistent queue leaves the set
      as it was but one fewer in the count. */
  lemma RemoveAbsentDesynchronisesCount<E>(q: Queue<E>, o: E)
    requires Consistent(q) && q.count > 0 && o !in q.elems
    ensures !Remove(q, o).result
    ensures Remove(q, o).queue.elems == q.elems
    ensures Remove(q, o).queue.count == |q.elems| - 1
    ensures !Consistent(Remove(q, o).queue)
  {
  }

  /** `remove(o)` decrementing the count only when the set changed. */
  function RemoveCorrected<E(==)>(q: Queue<E>, o: E): (r: Out<E, bool>)
    requires Inv(q)
    ensures r.result <==> q.count > 0 && o in q.elems
    ensures !r.result ==> r.queue == q
    ensures r.result ==> r.queue.elems == Without(q.elems, o) && r.queue.count == q.count - 1
    ensures Inv(r.queue) && r.queue.capacity == q.capacity
    ensures Consistent(q) ==> Consistent(r.queue)
    ensures (r.signals.notFull <==> r.result && q.count == q.capacity) && !r.signals.notEmpty
  {
    if Size(q) == 0 || o !in q.elems then Out(q, false, NoSignal)
    else
      WithoutDistinct(q.elems, o);
      Out(Queue(Without(q.elems, o), q.count - 1, q.capacity), true,
          Signals(notFull := q.count == q.capacity, notEmpty := false))
  }
}
