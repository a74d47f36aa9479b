/**
 * Client methods that replay the queue's documented usage: what callers can
 * conclude from the contracts of `ImmutableQueue` alone.
 */
module QueueScenarios {
  import opened Outcomes
  import ImmutableStack
  import opened ImmutableQueue

  /**
   * Enqueue 1, 2, 3 (the head is 1); dequeue once, which promotes the reversed
   * `incoming` to `outgoing`; enqueue 4, 5. Enumerating the queue yields
   * 2, 3, 4, 5, and reading the head while dequeuing gives the same order.
   */
  method IterationOrder() returns (firstHead: Result<int>, seen: seq<int>, dequeued: seq<int>)
    ensures firstHead == Ok(1)
    ensures seen == [2, 3, 4, 5]
    ensures dequeued == seen
  {
    var q := Queue<int>.Empty();
    q := q.EnQueue(1);
    q := q.EnQueue(2);
    q := q.EnQueue(3);
    firstHead := q.Head();
    var d := q.DeQueue();
    q := d.value;
    assert q.Contents() == [2, 3];
    q := q.EnQueue(4);
    q := q.EnQueue(5);
    assert q.Contents() == [2, 3, 4, 5];
    var it := q.Iterator();
    var a := it.Next();
    var b := it.Next();
    var c := it.Next();
    var e := it.Next();
    seen := [a.value, b.value, c.value, e.value];
    dequeued := [];
    var h := q.Head();
    dequeued := dequeued + [h.value];
    d := q.DeQueue();
    q := d.value;
    h := q.Head();
    dequeued := dequeued + [h.value];
    d := q.DeQueue();
    q := d.value;
    h := q.Head();
    dequeued := dequeued + [h.value];
    d := q.DeQueue();
    q := d.value;
    h := q.Head();
    dequeued := dequeued + [h.value];
  }

  /**
   * The iterator of a one-element queue: `hasNext` holds, `next` gives the
   * element, then `hasNext` fails and `next` throws `NoSuchElementException`.
   */
  method GetEnumeratorText() returns (before: bool, value: Result<int>, after: bool,
                                      exhausted: Result<int>)
    ensures before && value == Ok(5) && !after
    ensures exhausted == Err(NoSuchElementException)
  {
    var q := Queue<int>.Create(5);
    var it := q.Iterator();
    before := it.HasNext();
    value := it.Next();
    after := it.HasNext();
    exhausted := it.Next();
  }

  /**
   * Enqueue 5 and 6: the heads seen while dequeuing are 5 then 6, and removing
   * the last element leaves the empty queue. The queue holding only 6 is kept:
   * after it has been dequeued, it still reports 6 at its head, and dequeuing
   * it again gives an empty queue.
   */
  method DeQueuedValue() returns (first: Result<int>, second: Result<int>, emptied: bool,
                                  headAgain: Result<int>, emptiedAgain: bool)
    ensures first == Ok(5) && second == Ok(6) && emptied
    ensures headAgain == Ok(6) && emptiedAgain
  {
    var q := Queue<int>.Empty();
    q := q.EnQueue(5);
    q := q.EnQueue(6);
    first := q.Head();
    var d := q.DeQueue();
    q := d.value;
    second := q.Head();
    var e := q.DeQueue();
    var emptyQueue := e.value;
    emptied := emptyQueue.IsEmpty()
      && ImmutableStack.IsEmpty(emptyQueue.outgoing) && ImmutableStack.IsEmpty(emptyQueue.incoming);
    headAgain := q.Head();
    e := q.DeQueue();
    emptiedAgain := e.Ok? && ImmutableStack.IsEmpty(e.value.outgoing)
      && ImmutableStack.IsEmpty(e.value.incoming);
  }

  /** On the empty queue both `head` and `deQueue` throw `EmptyStackException`. */
  method EmptyThrows() returns (head: Result<int>, deQueued: bool)
    ensures head == Err(EmptyStackException) && deQueued
  {
    var q := Queue<int>.Empty();
    head := q.Head();
    var d := q.DeQueue();
    deQueued := d == Err(EmptyStackException);
  }
}
