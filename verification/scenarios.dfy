/** Concrete runs of the queue on integers: the behaviour its unit tests
    describe, and what `remove(Object)` of an absent value does. */
module Scenarios {
  import opened Java
  import opened Sequences
  import opened HashQueue
  import opened QueueTraces

  /** Capacity 2: put 1, put 1 again, offer 1: all succeed and the size stays 1. */
  lemma DuplicatePutsAreCoalesced()
    ensures var q0 := New<int>(2).value;
      var q1 := Put(q0, NonNull(1)).value.out.queue;
      var q2 := Put(q1, NonNull(1)).value.out.queue;
      var o := Offer(q2, NonNull(1)).value;
      q2 == q1 && o.result && o.queue == q1 && Size(o.queue) == 1
  {
  }

  /** Capacity 1 holding 1: offering 2 is rejected and the size stays 1. */
  lemma OfferRejectedWhenFull()
    ensures var q1 := Offer(New<int>(1).value, NonNull(1)).value.queue;
      var o := Offer(q1, NonNull(2)).value;
      !o.result && Size(o.queue) == 1
  {
  }

  /** Capacity 3: put 1, 2, 3, then take three times: 1, 2, 3 come out in order. */
  lemma FifoOneTwoThree()
    ensures FitsWithoutWaiting(New<int>(3).value, [1, 2, 3])
    ensures PutAll(New<int>(3).value, [1, 2, 3]).elems == [1, 2, 3]
    ensures PollAll(PutAll(New<int>(3).value, [1, 2, 3]), 3).1 == [1, 2, 3]
  {
    FifoAmongDistinct(New<int>(3).value, [1, 2, 3]);
  }

  /** Capacity 2: put 1, put 1, put 2 never waits, although three puts exceed the
      capacity, and leaves 1 then 2. */
  lemma DuplicatePutDoesNotUseRoom()
    ensures FitsWithoutWaiting(New<int>(2).value, [1, 1, 2])
    ensures PutAll(New<int>(2).value, [1, 1, 2]).elems == [1, 2]
  {
    var q := New<int>(2).value;
    assert q.elems + [1, 1, 2] == [1, 1, 2] && q.elems + [1, 1, 2][..2] == [1, 1];
    assert [1, 1, 2][..2] == [1, 1] && [1, 1][..1] == [1] && [1][..0] == [];
    assert Dedup([1, 1]) == [1];
    assert Dedup([1, 1, 2]) == [1, 2];
  }

  /** Capacity 1 holding 1: `remove(2)` returns false yet drops the count to 0, so
      `contains(1)` is false and `take()` waits although 1 is still in the set. */
  lemma RemoveAbsentHidesElement()
    ensures var q1 := Offer(New<int>(1).value, NonNull(1)).value.queue;
      var r := Remove(q1, 2);
      && !r.result
      && r.queue.elems == [1]
      && Size(r.queue) == 0
      && !Contains(r.queue, 1)
      && Take(r.queue) == Wait
  {
  }

  /** Continuing: `offer(3)` is then accepted, and the set holds two elements
      in a queue of capacity 1. */
  lemma RemoveAbsentOverfillsQueue()
    ensures var q1 := Offer(New<int>(1).value, NonNull(1)).value.queue;
      var q2 := Remove(q1, 2).queue;
      var o := Offer(q2, NonNull(3)).value;
      && o.result
      && o.queue.elems == [1, 3]
      && |o.queue.elems| > o.queue.capacity
  {
  }

  /** With the corrected `remove`, the same run rejects `offer(3)`. */
  lemma RemoveCorrectedKeepsCapacity()
    ensures var q1 := Offer(New<int>(1).value, NonNull(1)).value.queue;
      var q2 := RemoveCorrected(q1, 2).queue;
      var o := Offer(q2, NonNull(3)).value;
      && q2 == q1
      && !o.result
      && |o.queue.elems| <= o.queue.capacity
  {
  }
}
