# Persistent stack and queue

This project models the two persistent collections of the `paybaymax` challenge
in Dafny: `ImmutableStack<T>`, a singly-linked LIFO list whose `push` shares the
receiver as the new node's tail, and `ImmutableQueue<T>`, a FIFO queue made of
two such stacks (`outgoing` in dequeue order, `incoming` newest on top) plus a
lazily filled cache of `incoming` reversed. Every operation that looks like a
change returns a new value; the receiver stays as it was.

- `outcomes.dfy` — `Option` (Java's `null` in the fields filled later), `Error`
  (`EmptyStackException`, `NoSuchElementException`) and `Result`, which stands
  for "returns a value or throws".
- `immutable_stack.dfy` — module `ImmutableStack`. The stack is the datatype
  `Stack<T> = EmptyStack | Node(head, tail)`, and its contents are `Elems(s)`,
  read from the top down. `push`, `pop`, `peek`, `isEmpty`, `clear`, `empty` and
  `create(item)` are functions. `create(items...)`/`createAll` and `reverse`
  are loops in the source, so they are methods with loop invariants. The
  iterator is the class `Itr`, whose mutable field `remainingStack` is
  advanced by `Next`.
- `immutable_queue.dfy` — module `ImmutableQueue`. The queue is the class
  `Queue<T>`. Its `const` fields are `outgoing` and `incoming`. Its one `var` is
  `incomingReversed`, which `GetIncomingReversed` writes in place. The contents
  are `Contents() == Elems(outgoing) + Reversed(Elems(incoming))`. Two
  invariants are kept. `Balanced()`: an empty `outgoing` implies an empty
  `incoming`, so a non-empty queue has its head on `outgoing`. `CacheValid()`:
  the cache, once set, equals `incoming` reversed. The iterator is the class
  `Itr`, over the two remaining stacks.
- `queue_scenarios.dfy` — client methods replaying five of the queue's unit tests (`iterationOrder`, `getEnumeratorText`, `deQueuedValue`, `peekEmptyThrows`, `deQueueEmptyThrows`),
  proved from the contracts alone.

Each iterator carries a ghost `yielded` sequence. Its `Valid()` states
`yielded + Remaining() == ` the collection's contents, so the order of
traversal is part of the invariant.

## Model

| member | source | states |
|---|---|---|
| ImmutableStack.Empty | paybaymax/src/main/java/com/paybay/challenge/types/ImmutableStack.java:95-99 | the empty stack holds no elements and is recognised as empty |
| ImmutableStack.IsEmpty | paybaymax/src/main/java/com/paybay/challenge/types/ImmutableStack.java:85-87 | the tag test (`tail == null`) holds iff the stack has no elements |
| ImmutableStack.Push | paybaymax/src/main/java/com/paybay/challenge/types/ImmutableStack.java:53-55 | prepends exactly one element; the result is never empty; popping it gives back the receiver itself and peeking gives the pushed value (LIFO law) |
| ImmutableStack.Pop | paybaymax/src/main/java/com/paybay/challenge/types/ImmutableStack.java:61-67 | throws `EmptyStackException` iff the stack is empty; otherwise the result holds every element but the top one |
| ImmutableStack.Peek | paybaymax/src/main/java/com/paybay/challenge/types/ImmutableStack.java:73-79 | throws `EmptyStackException` iff the stack is empty; otherwise returns the first element top-down |
| ImmutableStack.Clear | paybaymax/src/main/java/com/paybay/challenge/types/ImmutableStack.java:105-107 | whatever the receiver, the result is the empty stack (so `clear` is idempotent) |
| ImmutableStack.Create | paybaymax/src/main/java/com/paybay/challenge/types/ImmutableStack.java:116-118 | the result holds exactly the one item |
| ImmutableStack.CreateAll | paybaymax/src/main/java/com/paybay/challenge/types/ImmutableStack.java:127-154 | pushing in input order leaves the items reversed, top-down, with the last input item on top |
| ImmutableStack.Reverse | paybaymax/src/main/java/com/paybay/challenge/types/ImmutableStack.java:170-177 | draining the receiver yields a stack whose elements are the receiver's, reversed, and of the same length |
| ImmutableStack.ReverseTwice | paybaymax/src/main/java/com/paybay/challenge/types/ImmutableStack.java:170-177 | reversing the reversal of a stack gives back the very same stack value |
| ImmutableStack.Itr.constructor | paybaymax/src/main/java/com/paybay/challenge/types/ImmutableStack.java:195-197 | a new iterator has yielded nothing and has the whole stack, top-down, still to go |
| ImmutableStack.Itr.HasNext | paybaymax/src/main/java/com/paybay/challenge/types/ImmutableStack.java:203-209 | true exactly when elements remain, both before and after the first `next` |
| ImmutableStack.Itr.Next | paybaymax/src/main/java/com/paybay/challenge/types/ImmutableStack.java:215-227 | returns the next element top-down and consumes it; throws `NoSuchElementException` when nothing remains; what was yielded plus what remains is always the stack's elements |
| ImmutableStack.Iterator | paybaymax/src/main/java/com/paybay/challenge/types/ImmutableStack.java:161-163 | a fresh iterator whose traversal is the stack's elements top-down |
| ImmutableQueue.Queue.constructor | paybaymax/src/main/java/com/paybay/challenge/types/ImmutableQueue.java:42-49 | stores both stacks and leaves the cache unset |
| ImmutableQueue.Queue.Empty | paybaymax/src/main/java/com/paybay/challenge/types/ImmutableQueue.java:158-162 | a queue built from two empty stacks, holding nothing, and satisfying the invariants |
| ImmutableQueue.Queue.IsEmpty | paybaymax/src/main/java/com/paybay/challenge/types/ImmutableQueue.java:99-101 | both stacks are empty iff the queue's contents are empty |
| ImmutableQueue.Queue.Head | paybaymax/src/main/java/com/paybay/challenge/types/ImmutableQueue.java:87-93 | throws `EmptyStackException` iff the queue is empty; otherwise returns the first element in dequeue order, which is `outgoing`'s top |
| ImmutableQueue.Queue.EnQueue | paybaymax/src/main/java/com/paybay/challenge/types/ImmutableQueue.java:56-62 | appends the value at the back and keeps both invariants; on an empty queue the value goes onto `outgoing`, otherwise it is pushed onto `incoming` and `outgoing` is shared |
| ImmutableQueue.Queue.DeQueue | paybaymax/src/main/java/com/paybay/challenge/types/ImmutableQueue.java:68-81 | throws `EmptyStackException` iff the queue is empty. Otherwise the result holds every element but the first and keeps both invariants. While the popped `outgoing` still has elements, the result is that popped stack with the receiver's `incoming` shared. When `outgoing` runs out with `incoming` non-empty, the result's `outgoing` is the very reversal just cached on the receiver, and its `incoming` is empty. Removing the last element leaves two empty stacks. The receiver's contents are unchanged and its cache stays valid; a cache already filled is left as it was |
| ImmutableQueue.Queue.Clear | paybaymax/src/main/java/com/paybay/challenge/types/ImmutableQueue.java:107-109 | whatever the receiver, the result is an empty queue made of two empty stacks |
| ImmutableQueue.Queue.Create | paybaymax/src/main/java/com/paybay/challenge/types/ImmutableQueue.java:118-120 | the result holds exactly the one item |
| ImmutableQueue.Queue.CreateAll | paybaymax/src/main/java/com/paybay/challenge/types/ImmutableQueue.java:129-156 | enqueuing in input order gives a queue whose contents are the items in the same order (none at all for no items) |
| ImmutableQueue.Queue.GetIncomingReversed | paybaymax/src/main/java/com/paybay/challenge/types/ImmutableQueue.java:172-178 | returns `incoming` reversed and caches it; a cache already set is returned as it is and always equals `incoming` reversed |
| ImmutableQueue.Queue.Iterator | paybaymax/src/main/java/com/paybay/challenge/types/ImmutableQueue.java:168-170 | a fresh iterator whose traversal is the queue's contents in dequeue order |
| ImmutableQueue.Itr.constructor | paybaymax/src/main/java/com/paybay/challenge/types/ImmutableQueue.java:200-202 | a new iterator has yielded nothing and has the whole queue still to go |
| ImmutableQueue.Itr.HasNext | paybaymax/src/main/java/com/paybay/challenge/types/ImmutableQueue.java:208-214 | true exactly when elements remain, both before and after the first `next` |
| ImmutableQueue.Advance | paybaymax/src/main/java/com/paybay/challenge/types/ImmutableQueue.java:226-236 | one traversal step. The first of the remaining elements is returned and the new position holds the rest. While `forwards` is non-empty it is popped and `backwards` is left as it is; once `forwards` is empty, `backwards` is popped. With nothing left, `NoSuchElementException` is thrown and the position does not move |
| ImmutableQueue.Itr.Next | paybaymax/src/main/java/com/paybay/challenge/types/ImmutableQueue.java:220-237 | walks `outgoing` top-down, then the cached reversal of `incoming`. Each element is returned once in dequeue order; past the end it throws `NoSuchElementException`. The queue's cache stays valid. The queue's cache is filled at most once: a cache already filled is left as it was, and a call after the first leaves it alone |
| QueueScenarios.IterationOrder | paybaymax/src/test/java/com/paybay/challenge/ImmutableLinkedQueueTest.java:113-136 | enqueue 1,2,3 (the head is 1); dequeue, forcing the promotion; enqueue 4,5. Enumeration yields 2,3,4,5, and reading the head while dequeuing yields the same order |
| QueueScenarios.GetEnumeratorText | paybaymax/src/test/java/com/paybay/challenge/ImmutableLinkedQueueTest.java:138-147 | on the queue created from 5, the iterator has a next element, yields 5, then has none, and a further `next` throws `NoSuchElementException` |
| QueueScenarios.DeQueuedValue | paybaymax/src/test/java/com/paybay/challenge/ImmutableLinkedQueueTest.java:51-66 | after enqueuing 5 and 6, the heads seen while dequeuing are 5 then 6, and the last dequeue leaves two empty stacks. The kept queue holding 6 still reports 6 at its head after it has been dequeued, and dequeuing it again gives two empty stacks |
| QueueScenarios.EmptyThrows | paybaymax/src/test/java/com/paybay/challenge/ImmutableLinkedQueueTest.java:94-104 | on the empty queue both `head` and `deQueue` throw `EmptyStackException` |

## Left out

- Object identity of the two singletons. `ImmutableStack.Empty` is the datatype value `EmptyStack`, and stack equality in the model is structural. `ImmutableQueue.Queue.Empty` and `Clear` allocate a fresh empty queue, where Java returns the shared `EMPTY_QUEUE`. The identity-based assertions of the unit tests (`assertSame` on the empty queue, the `equals` test) are not modelled.
- ImmutableQueue.Queue.Head: requires `Balanced()`, the reachable-state invariant. The Java constructor is private, and every queue that `empty`, `enQueue` and `deQueue` build satisfies it. On an unbalanced queue, which cannot be reached, Java's `head` would throw from `outgoing.peek()`.
- ImmutableQueue.Queue.EnQueue: requires `Balanced()`, for the same reason. On an unreachable unbalanced queue Java would push onto `incoming` while `outgoing` stays empty.
- ImmutableQueue.Queue.DeQueue: requires `Valid()`, i.e. `Balanced()` and a valid cache. On an unreachable unbalanced queue Java's `deQueue` would throw from `outgoing.pop()`.
- ImmutableQueue.Queue.Iterator: requires `Valid()`, which every reachable queue satisfies.
- ImmutableQueue.Itr.constructor: requires the queue's `Valid()`, which every reachable queue satisfies.
- `create(T... items)` and `createAll(Iterable)` have the same body in both classes. A Java array and an `Iterable` both become a Dafny `seq`, so each class has one `CreateAll` for both.
- The argument checks of `TypeCheckUtil.notNull`: Dafny values are never null.
- The Java `Iterator`/`Iterable` protocol and `remove()` throwing `UnsupportedOperationException`: only the traversal order, `hasNext` and `next` are modelled.
- The unchecked generic casts of the singletons in `empty()`.
- Thread safety of the lazy write of `incomingReversed`: the model is sequential. It keeps only "once set, the cache equals `incoming` reversed".
- The amortized O(1) cost of `deQueue` and the O(1) cost of `head`: the model states results, not costs.
- The interfaces `Stack` and `Queue` only declare these operations. The test fixture `IntDataTestEqualityHelper` is not part of this model.
