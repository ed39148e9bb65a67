# LinkedBlockingHashQueue, modelled in Dafny

`LinkedBlockingHashQueue<E>` is a bounded, blocking FIFO queue that ignores
duplicates. Its state is an insertion-ordered `LinkedHashSet`, a separate
`AtomicInteger` count and a fixed capacity. One `ReentrantLock` guards that state.
Two conditions, `notFull` and `notEmpty`, wake blocked producers and consumers.

The model is the sequential state machine under the lock:

- `HashQueue.Queue(elems, count, capacity)` is the state. `elems` is the set as a
  sequence in first-insertion order, so its head is the oldest element.
- Every public operation is a pure transition. It returns an `Out` record: the
  new state, the Java return value, and the `Signals` it sent (`notFull`,
  `notEmpty`; each wakes at most one waiter).
- A blocking operation (`put`, `take`, timed `offer`/`poll`) returns `Wait` when
  its guard is false. The thread suspends and the state is unchanged. Otherwise
  it returns `Ready` with the post-wait step.
- `null` arguments are `Java.Nullable`. Thrown exceptions are `Java.Result.Throws`.
- `Inv` holds in every state reachable with `drainTo` sinks whose `add` appends
  (see Left out for a throwing `add`): distinct elements, `1 <= capacity <= Integer.MAX_VALUE`,
  `0 <= count <= capacity` and `count <= |elems|`. `Consistent` adds
  `count == |elems|`. Every operation keeps `Inv`. Every operation except
  `remove(Object)` also keeps `Consistent`.

Modules: `Java` (int range, null, exceptions), `Sequences` (distinct sequences,
set removal), `HashQueue` (the queue), `HashQueueIter` (the iterator),
`QueueTraces` (runs of several operations) and `Scenarios` (concrete runs from
the unit tests and from the finding below).

Three behaviours of the code are easy to misread. The model follows the code:

- After a take, `signalAfterTake` receives the count from before the decrement.
  It signals `notEmpty` when that count exceeds 1 (`c > 1`), that is when at
  least one counted element remains.
- `remove(o)` decrements the count whenever the count is positive, even when
  `o` is absent. So the count agrees with the set's size only as long as no
  absent value is removed (see Findings).
- `contains(o)` reads the count only in its unlocked `size() == 0` check, and
  then asks the set. It returns true exactly when the count is positive and `o`
  is in the set. Once the count has fallen behind the set, that differs from
  plain membership.

All counts and capacities stay within Java `int` range under `Inv`
(`count < capacity` guards every increment), so no wrap-around arises and none is
modelled.

## Model

| member | source | states |
|---|---|---|
| `HashQueue.New` | src/main/java/LinkedBlockingHashQueue.java:49-53 | throws `IllegalArgumentException` exactly when `capacity <= 0`; otherwise an empty queue with that capacity and count in step with the set |
| `HashQueue.NewUnbounded` | src/main/java/LinkedBlockingHashQueue.java:45-47 | the no-argument constructor gives an empty, consistent queue of capacity `Integer.MAX_VALUE` |
| `HashQueue.Size` | src/main/java/LinkedBlockingHashQueue.java:59-61 | `size()` lies in `[0, capacity]` and equals the number of elements when the count is in step |
| `HashQueue.RemainingCapacity` | src/main/java/LinkedBlockingHashQueue.java:162-164 | never negative; with the count in step, it plus the number of elements is the capacity |
| `HashQueue.SignalAfterPut` | src/main/java/LinkedBlockingHashQueue.java:280-287 | the wake-up policy after an insertion; no contract of its own: `HashQueue.Enqueue` states what it signals in terms of the queue before and after |
| `HashQueue.SignalAfterTake` | src/main/java/LinkedBlockingHashQueue.java:289-296 | the wake-up policy after a removal of the head; no contract of its own: `HashQueue.TakeHead` states what it signals (`notFull` iff the queue was full, `notEmpty` iff a counted element remains) |
| `HashQueue.Head` | src/main/java/LinkedBlockingHashQueue.java:258-260 | the first element of the set's iteration order; no contract of its own: `HashQueue.Dequeue` and `HashQueue.TakeHead` state that it is the oldest element |
| `HashQueue.Dequeue` | src/main/java/LinkedBlockingHashQueue.java:262-268 | returns the head and leaves exactly the elements after it, in order; the count and capacity are untouched, so the caller must adjust the count |
| `HashQueue.Enqueue` | src/main/java/LinkedBlockingHashQueue.java:270-287 | a duplicate leaves the state unchanged and signals nothing; a new element goes to the tail and raises the count by 1; `notEmpty` is signalled iff the prior count was 0 and `notFull` iff the prior count plus 1 is below the capacity, which with the count in step means iff the set was empty and iff room remains; invariants and count/size agreement are kept |
| `HashQueue.Put` | src/main/java/LinkedBlockingHashQueue.java:63-74 | `null` throws `NullPointerException`; a full queue makes the caller wait; otherwise exactly the `enqueue` step (so duplicates still complete normally) |
| `HashQueue.Offer` | src/main/java/LinkedBlockingHashQueue.java:76-92 | `null` throws and any other element returns normally; returns true iff `count < capacity`, duplicates included; a false return changes nothing and signals nothing; a true return is the `enqueue` step |
| `HashQueue.OfferTimed` | src/main/java/LinkedBlockingHashQueue.java:94-111 | one pass of the timed offer: waits iff full with time left; full with no time left returns false and changes nothing; otherwise enqueues and returns true |
| `HashQueue.TakeHead` | src/main/java/LinkedBlockingHashQueue.java:258-296 | lines 119-120 of `take`/`poll`, calling `head`/`dequeue` (258-268) and `signalAfterTake` (289-296): returns the oldest element and removes only it; the count drops by 1; `notFull` is signalled iff the queue was full, `notEmpty` iff a counted element remains; invariants kept |
| `HashQueue.Take` | src/main/java/LinkedBlockingHashQueue.java:113-126 | waits iff the count is 0; otherwise the head-taking step |
| `HashQueue.Poll` | src/main/java/LinkedBlockingHashQueue.java:147-160 | returns `null` iff the count is 0, and then changes nothing; otherwise returns the head as `take` does |
| `HashQueue.PollTimed` | src/main/java/LinkedBlockingHashQueue.java:128-145 | one pass of the timed poll: waits iff empty with time left; otherwise behaves as `poll()` |
| `HashQueue.Peek` | src/main/java/LinkedBlockingHashQueue.java:193-207 | `null` iff the count is 0; otherwise the oldest element |
| `HashQueue.PeekIsNextPoll` | src/main/java/LinkedBlockingHashQueue.java:193-207 | `peek()` returns what the next `poll()` returns, and that element is gone after the poll |
| `HashQueue.PollAll` | src/main/java/LinkedBlockingHashQueue.java:178-182 | k successive head removals return the k oldest elements in order and leave the rest in order, with the count lowered by k |
| `HashQueue.DrainCount` | src/main/java/LinkedBlockingHashQueue.java:176 | the number moved is `min(maxElements, size())` when `maxElements` is not negative, and 0 when it is |
| `HashQueue.DrainTo` | src/main/java/LinkedBlockingHashQueue.java:170-191 | a `null` sink throws `NullPointerException`, the queue itself throws `IllegalArgumentException`; otherwise returns `min(maxElements, size())` (negative when `maxElements` is), appends the same elements in the same order that as many polls would return, leaves the state those polls leave, and signals `notFull` iff something moved from a full queue |
| `HashQueue.DrainAll` | src/main/java/LinkedBlockingHashQueue.java:166-168 | `drainTo(c)`: a `null` sink throws `NullPointerException`, the queue itself throws `IllegalArgumentException`; otherwise it moves every counted element to the sink in order, leaves the state that many polls leave (count 0, capacity unchanged, any uncounted elements still queued), and signals `notFull` iff something moved from a full queue; with the count in step it empties the queue |
| `HashQueue.Clear` | src/main/java/LinkedBlockingHashQueue.java:209-221 | leaves an empty, consistent queue; `notFull` is signalled iff the queue had been full; `notEmpty` never |
| `HashQueue.Contains` | src/main/java/LinkedBlockingHashQueue.java:223-234 | true exactly when the count is positive and the value is in the set; with the count in step, true exactly for members |
| `HashQueue.Remove` | src/main/java/LinkedBlockingHashQueue.java:236-256 | returns true iff the count is positive and the value is present; with a positive count it removes the value if present and always lowers the count by 1; `notFull` iff the queue was full; `Inv` kept, agreement kept only on a true return |
| `HashQueue.RemoveAbsentDesynchronisesCount` | src/main/java/LinkedBlockingHashQueue.java:246-247 | removing an absent value from a non-empty consistent queue returns false, leaves the set unchanged and leaves the count one below the set's size |
| `HashQueue.RemoveCorrected` | src/main/java/LinkedBlockingHashQueue.java:246-247 | returns true iff the count is positive and the value is present; a false return changes nothing; a true return cuts the value out and lowers the count by 1; `notFull` is signalled iff it removed from a full queue, `notEmpty` never; decrementing only on a successful removal keeps the count in step with the set in every case |
| `Sequences.Without` | src/main/java/LinkedBlockingHashQueue.java:246 | `LinkedHashSet.remove` on the ordered contents: an absent value changes nothing; a present one is cut out at its position, keeping the order of the rest |
| `Sequences.WithoutDistinct` | src/main/java/LinkedBlockingHashQueue.java:246 | removal keeps the elements distinct and leaves the value absent |
| `HashQueueIter.Iterator` | src/main/java/LinkedBlockingHashQueue.java:298-308 | `iterator()` (lines 55-57) builds a cursor over the set's current elements in insertion order, at the start; it has a next element iff the set is not empty |
| `HashQueueIter.HasNext` | src/main/java/LinkedBlockingHashQueue.java:310-318 | whether the cursor has not passed the last element; no contract of its own: `HashQueueIter.Next` states that `next()` throws exactly when it is false, and `HashQueueIter.IterationVisitsQueueOrder` what the iteration yields |
| `HashQueueIter.Next` | src/main/java/LinkedBlockingHashQueue.java:320-328 | yields the element at the cursor and advances; past the end throws `NoSuchElementException` |
| `HashQueueIter.IterationVisitsQueueOrder` | src/main/java/LinkedBlockingHashQueue.java:298-329 | iterating visits the elements oldest first, each once; with the count in step, as many as `size()` |
| `QueueTraces.PutAll` | src/main/java/LinkedBlockingHashQueue.java:63-74 | a run of puts none of which waits (before the last put fewer than capacity distinct values are held; a duplicate put still needs room, since the count is checked before `enqueue` ignores it) keeps the count in step and leaves exactly the first occurrence of each value of the old contents followed by the put values, in that order (`Sequences.Dedup`) |
| `QueueTraces.PutAllKeepsFirstInsertionOrder` | src/main/java/LinkedBlockingHashQueue.java:270-278 | after any run of puts none of which waits, duplicates included, the old contents are a prefix, the queue holds exactly the old and new values, and they are ordered by where each first arrived |
| `QueueTraces.PutAllDistinctAppends` | src/main/java/LinkedBlockingHashQueue.java:270-278 | values that are all new and distinct and fit in the free room never wait, and putting them appends them in order |
| `QueueTraces.FifoAmongDistinct` | src/test/java/LinkedBlockingHashQueueTest.java:190-206 | distinct values put into an empty queue come out of as many polls in the same order, leaving it empty |
| `QueueTraces.Apply` | src/main/java/LinkedBlockingHashQueue.java:63-256 | every state-changing operation (`put`, `offer`, timed `offer`, `take`, `poll`, timed `poll`, `drainTo`, `clear`, `remove(Object)`; a wait leaves the state as it was) keeps `Inv` and the capacity; all but `remove` keep the count in step |
| `QueueTraces.Run` | src/main/java/LinkedBlockingHashQueue.java:63-256 | any sequence of the operations `Apply` lists keeps `0 <= count <= capacity` and the other invariants |
| `QueueTraces.RunWithoutRemoveStaysConsistent` | src/main/java/LinkedBlockingHashQueue.java:63-234 | a run without `remove(Object)` keeps the count equal to the set's size, so the set never exceeds the capacity |
| `Scenarios.DuplicatePutsAreCoalesced` | src/test/java/LinkedBlockingHashQueueTest.java:63-71 | put 1, put 1, offer 1 on capacity 2 all succeed and the size stays 1 |
| `Scenarios.OfferRejectedWhenFull` | src/test/java/LinkedBlockingHashQueueTest.java:33-42 | offering a second distinct value at capacity 1 returns false and the size stays 1 |
| `Scenarios.DuplicatePutDoesNotUseRoom` | src/main/java/LinkedBlockingHashQueue.java:63-74 | on capacity 2, put 1, put 1, put 2 never waits, though three puts exceed the capacity, and leaves 1 then 2 |
| `Scenarios.FifoOneTwoThree` | src/test/java/LinkedBlockingHashQueueTest.java:190-206 | put 1, 2, 3 then take three times yields 1, 2, 3 |
| `Scenarios.RemoveAbsentHidesElement` | src/main/java/LinkedBlockingHashQueue.java:236-256 | after `remove` of an absent value, a present element is reported absent by `contains` and `take` waits |
| `Scenarios.RemoveAbsentOverfillsQueue` | src/main/java/LinkedBlockingHashQueue.java:246-247 | a queue of capacity 1 then accepts a second element and holds two |
| `Scenarios.RemoveCorrectedKeepsCapacity` | src/main/java/LinkedBlockingHashQueue.java:246-247 | with the corrected removal the same run rejects the second element |

## Findings

| source | as written | input that shows it | evidently intended | confidence | as-written member | corrected member |
|---|---|---|---|---|---|---|
| src/main/java/LinkedBlockingHashQueue.java:246-247 | `remove(o)` decrements the count even when `hashSet.remove(o)` returned false | capacity 1: `offer(1)`, `remove(2)`, `offer(3)`: the second offer is accepted and the set holds 1 and 3 while `size()` is 1; before it, `contains(1)` is false and `take()` blocks | decrement the count, and signal, only when `hashSet.remove(o)` returned true | high; not executed | `Scenarios.RemoveAbsentOverfillsQueue` | `HashQueue.RemoveCorrected` |

`HashQueue.Remove` stays as written, and every operation is stated against it.
`HashQueue.RemoveCorrected` is the fix. Its contract proves that the count stays
in step with the set. `Scenarios.RemoveCorrectedKeepsCapacity` replays the same
run with the fix.

## Left out

- The lock, `Condition.await`/`awaitNanos`/`signal` and interruption
  (`lockInterruptibly`, `InterruptedException`): each operation is one atomic
  step. A wait is the `Wait` outcome. A signal is a returned flag, not a wake-up.
- Time: `TimeUnit.toNanos` and the time that passes while waiting are left out.
  The timed operations take the remaining nanoseconds as a parameter and model one
  pass of their wait loop.
- The unlocked `size()` pre-checks in `offer`, `peek` and `remove`: sequentially
  they repeat the locked check. The pre-check in `contains` is kept, because it is
  the only count check there.
- `AtomicInteger` is a plain integer. `Serializable`, the methods inherited from
  `AbstractQueue`, and Java `equals`/`hashCode` are left out. Element equality is
  Dafny's `==`.
- `contains(Object)`/`remove(Object)` take an `E`. A `null` argument, or one of
  another type, behaves like any value absent from the set.
- The sink of `drainTo` is a list whose `add` appends. Other `Collection`
  behaviours of `add` (sets, rejecting collections, exceptions) are left out.
  So is what a throwing `add` does to the state. `drainTo` unlinks each head
  (line 179) before it calls `c.add(e)` (line 180), and it lowers the count only
  after the loop (line 183). An exception from `add` therefore leaves the head
  out of the set while the count still includes it. Example: capacity 1,
  `put(1)`, then `drainTo` into an unmodifiable list. The set is now empty but
  the count is 1. `take()` then throws `NoSuchElementException` from `head()`
  (line 259), and `put(2)` blocks. `Inv` is claimed only for sinks whose `add`
  appends.
- `HashQueueIter` under concurrent mutation is left out. The iterator is a cursor
  over the current contents. The `LinkedHashSet` iterator's fail-fast
  `ConcurrentModificationException` is left out too.
- `QueueTraces.Apply`: `drainTo` is applied through its effect on the state
  (`PollAll` of `DrainCount` elements). `DrainTo` is a method, so a function
  cannot call it; `DrainTo`'s contract states that its state is that one.
- src/test/java/LinkedBlockingHashQueueConcurrentTest.java (multi-threaded
  handoff and throughput) is not part of this model.
