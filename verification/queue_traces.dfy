/** Properties of runs of several queue operations: first-insertion order,
    FIFO among distinct elements, and the bounds every run keeps. */
module QueueTraces {
  import opened Java
  import opened Sequences
  import opened HashQueue

  /** No put of xs waits: before the last one, and so before every earlier one,
      the queue holds fewer than capacity distinct values. A duplicate put still
      needs room, since `put` checks the count before `enqueue` ignores it. */
  predicate FitsWithoutWaiting<E(==)>(q: Queue<E>, xs: seq<E>) {
    xs == [] || |Dedup(q.elems + xs[..|xs| - 1])| < q.capacity
  }

  /** Put the elements of xs one after another, none of them waiting: the queue
      then holds the first occurrence of each value of its old contents and xs. */
  function PutAll<E(==)>(q: Queue<E>, xs: seq<E>): (r: Queue<E>)
    requires Consistent(q) && FitsWithoutWaiting(q, xs)
    ensures Consistent(r) && r.capacity == q.capacity
    ensures r.elems == Dedup(q.elems + xs)
    decreases |xs|
  {
    if xs == [] then
      assert q.elems + xs == q.elems;
      DedupOfDistinct(q.elems);
      q
    else
      var ys, x := xs[..|xs| - 1], xs[|xs| - 1];
      var s := q.elems + xs;
      assert s[..|s| - 1] == q.elems + ys && s[|s| - 1] == x;
      FitsWithoutWaitingInit(q, xs);
      var p := PutAll(q, ys);
      Enqueue(p, x).0
  }

  /** A run that never waits stays so without its last put. */
  lemma FitsWithoutWaitingInit<E>(q: Queue<E>, xs: seq<E>)
    requires FitsWithoutWaiting(q, xs) && xs != []
    ensures FitsWithoutWaiting(q, xs[..|xs| - 1])
  {
    var ys := xs[..|xs| - 1];
    if ys != [] {
      var s := q.elems + ys;
      assert s[..|s| - 1] == q.elems + ys[..|ys| - 1];
    }
  }

  /** After putting xs, the queue holds each element of its old contents and of
      xs once, ordered by the position where each first arrived. */
  lemma {:induction false} PutAllKeepsFirstInsertionOrder<E>(q: Queue<E>, xs: seq<E>)
    requires Consistent(q) && FitsWithoutWaiting(q, xs)
    ensures q.elems <= PutAll(q, xs).elems
    ensures forall y :: y in PutAll(q, xs).elems <==> y in q.elems + xs
    ensures forall i, j :: 0 <= i < j < |PutAll(q, xs).elems| ==>
      IndexOf(q.elems + xs, PutAll(q, xs).elems[i]) < IndexOf(q.elems + xs, PutAll(q, xs).elems[j])
  {
    DedupOfDistinct(q.elems);
    DedupPrefix(q.elems, xs);
    DedupMembers(q.elems + xs);
    DedupOrder(q.elems + xs);
  }

  /** Distinct values that fit in the free room never wait. */
  lemma DistinctFits<E>(q: Queue<E>, xs: seq<E>)
    requires Distinct(q.elems + xs) && |q.elems| + |xs| <= q.capacity
    ensures FitsWithoutWaiting(q, xs)
  {
    if xs != [] {
      var s := q.elems + xs;
      assert q.elems + xs[..|xs| - 1] == s[..|s| - 1];
      DistinctInit(s, |s| - 1);
      DedupOfDistinct(s[..|s| - 1]);
    }
  }

  /** Putting elements that are new and distinct, and fit, appends all of them. */
  lemma PutAllDistinctAppends<E>(q: Queue<E>, xs: seq<E>)
    requires Consistent(q) && |q.elems| + |xs| <= q.capacity
    requires Distinct(q.elems + xs)
    ensures FitsWithoutWaiting(q, xs)
    ensures PutAll(q, xs).elems == q.elems + xs
  {
    DistinctFits(q, xs);
    DedupOfDistinct(q.elems + xs);
  }

  /** FIFO among distinct elements: putting distinct xs into an empty queue with
      room for them and then polling |xs| times yields xs, and empties it. */
  lemma FifoAmongDistinct<E>(q: Queue<E>, xs: seq<E>)
    requires Consistent(q) && q.elems == [] && |xs| <= q.capacity
    requires Distinct(xs)
    ensures FitsWithoutWaiting(q, xs)
    ensures PutAll(q, xs).elems == xs
    ensures PollAll(PutAll(q, xs), |xs|).1 == xs
    ensures PollAll(PutAll(q, xs), |xs|).0.elems == []
  {
    assert q.elems + xs == xs;
    PutAllDistinctAppends(q, xs);
  }

  /** The operations that change the state, with a non-null element where one is taken. */
  datatype Op<E> =
    | PutOp(e: E)
    | OfferOp(e: E)
    | TimedOfferOp(e: E, nanos: int)
    | TakeOp
    | PollOp
    | TimedPollOp(nanos: int)
    | DrainOp(maxElements: int)
    | ClearOp
    | RemoveOp(o: E)

  /** The state after op; a blocking op whose guard is false, or a timed one
      still waiting, leaves it unchanged. */
  function Apply<E(==)>(q: Queue<E>, op: Op<E>): (r: Queue<E>)
    requires Inv(q)
    ensures Inv(r) && r.capacity == q.capacity
    ensures Consistent(q) && !op.RemoveOp? ==> Consistent(r)
  {
    match op
    case PutOp(e) =>
      var s := Put(q, NonNull(e));
      if s.Ok? && s.value.Ready? then s.value.out.queue else q
    case OfferOp(e) => Offer(q, NonNull(e)).value.queue
    case TimedOfferOp(e, nanos) =>
      var s := OfferTimed(q, NonNull(e), nanos).value;
      if s.Ready? then s.out.queue else q
    case TakeOp =>
      var s := Take(q);
      if s.Ready? then s.out.queue else q
    case PollOp => Poll(q).queue
    case TimedPollOp(nanos) =>
      var s := PollTimed(q, nanos);
      if s.Ready? then s.out.queue else q
    case DrainOp(maxElements) => PollAll(q, DrainCount(q, maxElements)).0
    case ClearOp => Clear(q).queue
    case RemoveOp(o) => Remove(q, o).queue
  }

  /** The state after running ops in order. */
  function Run<E(==)>(q: Queue<E>, ops: seq<Op<E>>): (r: Queue<E>)
    requires Inv(q)
    ensures Inv(r) && r.capacity == q.capacity
    decreases |ops|
  {
    if ops == [] then q else Run(Apply(q, ops[0]), ops[1..])
  }

  /** Without `remove(Object)` the count stays equal to the set's size, so the
      set never holds more than capacity elements. */
  lemma {:induction false} RunWithoutRemoveStaysConsistent<E>(q: Queue<E>, ops: seq<Op<E>>)
    requires Consistent(q)
    requires forall i :: 0 <= i < |ops| ==> !ops[i].RemoveOp?
    ensures Consistent(Run(q, ops))
    ensures |Run(q, ops).elems| <= q.capacity
    decreases |ops|
  {
    if ops != [] {
      RunWithoutRemoveStaysConsistent(Apply(q, ops[0]), ops[1..]);
    }
  }
}
