/** `HashQueueIter`, sequentially: a cursor over the set's elements in
    insertion order. Each step would take the lock; with no concurrent
    mutation that leaves a plain cursor. */
module HashQueueIter {
  import opened Java
  import opened HashQueue

  datatype Cursor<E> = Cursor(items: seq<E>, pos: nat)

  /** A cursor can be advanced until it reaches the end of its items. */
  predicate Valid<E>(c: Cursor<E>) {
    c.pos <= |c.items|
  }

  /** `iterator()`. */
  function Iterator<E>(q: Queue<E>): (c: Cursor<E>)
    ensures Valid(c) && c.items == q.elems && c.pos == 0
    ensures HasNext(c) <==> q.elems != []
  {
    Cursor(q.elems, 0)
  }

  /** `hasNext()`. */
  predicate HasNext<E>(c: Cursor<E>) {
    c.pos < |c.items|
  }

  /** `next()`: the next element, or `NoSuchElementException` past the end. */
  function Next<E>(c: Cursor<E>): (r: Result<(Cursor<E>, E)>)
    requires Valid(c)
    ensures r.Throws? <==> !HasNext(c)
    ensures r.Throws? ==> r.exception == NoSuchElementException
    ensures r.Ok? ==>
      && Valid(r.value.0)
      && r.value.0.items == c.items
      && r.value.0.pos == c.pos + 1
      && r.value.1 == c.items[c.pos]
  {
    if HasNext(c) then Ok((Cursor(c.items, c.pos + 1), c.items[c.pos]))
    else Throws(NoSuchElementException)
  }

  /** Everything `next()` yields while `hasNext()` holds, in order. */
  function Remaining<E>(c: Cursor<E>): seq<E>
    requires Valid(c)
    decreases |c.items| - c.pos
  {
    match Next(c)
    case Ok((c', e)) => [e] + Remaining(c')
    case Throws(_) => []
  }

  /** A cursor yields exactly the items from its position on. */
  lemma {:induction false} RemainingIsSuffix<E>(c: Cursor<E>)
    requires Valid(c)
    ensures Remaining(c) == c.items[c.pos..]
    decreases |c.items| - c.pos
  {
    if HasNext(c) {
      var c' := Next(c).value.0;
      RemainingIsSuffix(c');
      assert c.items[c.pos..] == [c.items[c.pos]] + c.items[c'.pos..];
    }
  }

  /** Iterating a queue visits its elements oldest first, each once, and as
      many as `size()` reports when the count is in step with the set. */
  lemma IterationVisitsQueueOrder<E>(q: Queue<E>)
    requires Inv(q)
    ensures Remaining(Iterator(q)) == q.elems
    ensures Consistent(q) ==> |Remaining(Iterator(q))| == Size(q)
  {
    RemainingIsSuffix(Iterator(q));
  }
}
