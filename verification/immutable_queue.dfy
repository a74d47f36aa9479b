/**
 * A persistent FIFO queue made of two persistent stacks: `outgoing` holds the
 * next elements in dequeue order, `incoming` holds later enqueues, newest on
 * top. Its one mutable field, `incomingReversed`, caches `incoming` reversed.
 */
module ImmutableQueue {
  import opened Outcomes
  import ImmutableStack

  type Stack<T> = ImmutableStack.Stack<T>

  class Queue<T> {
    const outgoing: Stack<T>
    const incoming: Stack<T>
    /** Filled by the first call of `GetIncomingReversed`; `None` stands for Java's `null`. */
    var incomingReversed: Option<Stack<T>>

    /** The elements in dequeue order: `outgoing` top to bottom, then `incoming` bottom to top. */
    function Contents(): seq<T>
    {
      ImmutableStack.Elems(outgoing) + ImmutableStack.Reversed(ImmutableStack.Elems(incoming))
    }

    /** Every reachable queue keeps its next element on `outgoing`. */
    predicate Balanced()
    {
      ImmutableStack.IsEmpty(outgoing) ==> ImmutableStack.IsEmpty(incoming)
    }

    /** The cache, once set, holds `incoming` reversed. */
    ghost predicate CacheValid()
      reads this
    {
      incomingReversed.Some? ==>
        ImmutableStack.Elems(incomingReversed.value) == ImmutableStack.Reversed(ImmutableStack.Elems(incoming))
    }

    ghost predicate Valid()
      reads this
    {
      Balanced() && CacheValid()
    }

    /** The private constructor: the two stacks and an empty cache. */
    constructor (outgoing: Stack<T>, incoming: Stack<T>)
      ensures this.outgoing == outgoing && this.incoming == incoming
      ensures incomingReversed == None && CacheValid()
    {
      this.outgoing := outgoing;
      this.incoming := incoming;
      incomingReversed := None;
    }

    /** `empty()`: a queue built from two empty stacks. */
    static method Empty() returns (q: Queue<T>)
      ensures fresh(q) && q.Valid() && q.Contents() == []
      ensures ImmutableStack.IsEmpty(q.outgoing) && ImmutableStack.IsEmpty(q.incoming)
    {
      q := new Queue(ImmutableStack.Empty(), ImmutableStack.Empty());
    }

    /** `isEmpty()`: both stacks are empty exactly when the queue holds nothing. */
    function IsEmpty(): (b: bool)
      ensures b <==> Contents() == []
    {
      ImmutableStack.ReversedLength(ImmutableStack.Elems(incoming));
      ImmutableStack.IsEmpty(outgoing) && ImmutableStack.IsEmpty(incoming)
    }

    /** `head()`: the first element in dequeue order, read off `outgoing`. */
    function Head(): (r: Result<T>)
      requires Balanced()
      ensures r.Err? <==> Contents() == []
      ensures r.Err? ==> r.error == EmptyStackException
      ensures r.Ok? ==> r.value == Contents()[0] && ImmutableStack.Peek(outgoing) == r
    {
      if IsEmpty() then Err(EmptyStackException) else ImmutableStack.Peek(outgoing)
    }

    /** `enQueue(value)`: appends `value`; on an empty queue it goes onto `outgoing`. */
    method EnQueue(value: T) returns (q: Queue<T>)
      requires Balanced()
      ensures fresh(q) && q.Valid()
      ensures q.Contents() == Contents() + [value]
      ensures IsEmpty() ==>
        q.outgoing == ImmutableStack.Create(value) && ImmutableStack.IsEmpty(q.incoming)
      ensures !IsEmpty() ==>
        q.outgoing == outgoing && q.incoming == ImmutableStack.Push(incoming, value)
    {
      if IsEmpty() {
        q := new Queue(ImmutableStack.Push(ImmutableStack.Empty(), value), ImmutableStack.Empty());
      } else {
        q := new Queue(outgoing, ImmutableStack.Push(incoming, value));
        ImmutableStack.ReversedAppend([value], ImmutableStack.Elems(incoming));
      }
    }

    /**
     * `deQueue()`: drops the first element. When `outgoing` runs out, the
     * reversed `incoming` becomes the new `outgoing`; when nothing is left, the
     * result is the empty queue.
     */
    method DeQueue() returns (r: Result<Queue<T>>)
      requires Valid()
      modifies this`incomingReversed
      ensures Valid()
      ensures r.Err? <==> Contents() == []
      ensures r.Err? ==> r.error == EmptyStackException
      ensures r.Ok? ==> fresh(r.value) && r.value.Valid() && r.value.Contents() == Contents()[1..]
      ensures r.Ok? && |Contents()| == 1 ==>
        ImmutableStack.IsEmpty(r.value.outgoing) && ImmutableStack.IsEmpty(r.value.incoming)
      ensures r.Ok? && !ImmutableStack.IsEmpty(ImmutableStack.Pop(outgoing).value) ==>
        r.value.outgoing == ImmutableStack.Pop(outgoing).value && r.value.incoming == incoming
      ensures r.Ok? && ImmutableStack.IsEmpty(ImmutableStack.Pop(outgoing).value)
                    && !ImmutableStack.IsEmpty(incoming) ==>
        incomingReversed == Some(r.value.outgoing) && ImmutableStack.IsEmpty(r.value.incoming)
      ensures old(incomingReversed).Some? ==> incomingReversed == old(incomingReversed)
    {
      if IsEmpty() {
        return Err(EmptyStackException);
      }
      var f := ImmutableStack.Pop(outgoing).value;
      if !ImmutableStack.IsEmpty(f) {
        var q := new Queue(f, incoming);
        ImmutableStack.ReversedLength(ImmutableStack.Elems(incoming));
        return Ok(q);
      } else if ImmutableStack.IsEmpty(incoming) {
        var q := Empty();
        return Ok(q);
      } else {
        var reversed := GetIncomingReversed();
        var q := new Queue(reversed, ImmutableStack.Empty());
        ImmutableStack.ReversedLength(ImmutableStack.Elems(incoming));
        return Ok(q);
      }
    }

    /** `clear()`: the empty queue, whatever the receiver. */
    method Clear() returns (q: Queue<T>)
      ensures fresh(q) && q.Valid() && q.Contents() == []
      ensures ImmutableStack.IsEmpty(q.outgoing) && ImmutableStack.IsEmpty(q.incoming)
    {
      q := Empty();
    }

    /** `create(item)`: a queue holding just `item`. */
    static method Create(item: T) returns (q: Queue<T>)
      ensures fresh(q) && q.Valid() && q.Contents() == [item]
    {
      q := Empty();
      q := q.EnQueue(item);
    }

    /**
     * `create(items...)` and `createAll(items)`: enqueue the items in input
     * order, so they come out in that order.
     */
    static method CreateAll(items: seq<T>) returns (q: Queue<T>)
      ensures fresh(q) && q.Valid() && q.Contents() == items
    {
      q := Empty();
      for i := 0 to |items|
        invariant fresh(q) && q.Valid() && q.Contents() == items[..i]
      {
        assert items[..i + 1] == items[..i] + [items[i]];
        q := q.EnQueue(items[i]);
      }
      assert items[..|items|] == items;
    }

    /** `getIncomingReversed()`: `incoming` reversed, computed once and cached. */
    method GetIncomingReversed() returns (r: Stack<T>)
      requires CacheValid()
      modifies this`incomingReversed
      ensures CacheValid() && incomingReversed == Some(r)
      ensures ImmutableStack.Elems(r) == ImmutableStack.Reversed(ImmutableStack.Elems(incoming))
      ensures old(incomingReversed).Some? ==> r == old(incomingReversed).value
    {
      if incomingReversed.None? {
        var reversed := ImmutableStack.Reverse(incoming);
        incomingReversed := Some(reversed);
      }
      r := incomingReversed.value;
    }

    /** `iterator()`: a fresh traversal in dequeue order. */
    method Iterator() returns (it: Itr<T>)
      requires Valid()
      ensures fresh(it) && it.Valid() && it.originalQueue == this
      ensures it.Remaining() == Contents() && it.yielded == []
    {
      it := new Itr(this);
    }
  }

  /**
   * One step of a queue traversal: the next element and the new position,
   * taken from the top of `forwards` while it lasts, then from `backwards`.
   */
  function Advance<T>(forwards: Stack<T>, backwards: Stack<T>): (r: (Result<T>, Stack<T>, Stack<T>))
    ensures var rest := ImmutableStack.Elems(forwards) + ImmutableStack.Elems(backwards);
      && (rest == [] ==> r == (Err(NoSuchElementException), forwards, backwards))
      && (rest != [] ==>
            && r.0 == Ok(rest[0])
            && ImmutableStack.Elems(r.1) + ImmutableStack.Elems(r.2) == rest[1..])
    ensures !ImmutableStack.IsEmpty(forwards) ==>
      r.1 == ImmutableStack.Pop(forwards).value && r.2 == backwards
    ensures ImmutableStack.IsEmpty(forwards) && !ImmutableStack.IsEmpty(backwards) ==>
      r.1 == forwards && r.2 == ImmutableStack.Pop(backwards).value
  {
    if !ImmutableStack.IsEmpty(forwards) then
      (ImmutableStack.Peek(forwards), ImmutableStack.Pop(forwards).value, backwards)
    else if !ImmutableStack.IsEmpty(backwards) then
      (ImmutableStack.Peek(backwards), forwards, ImmutableStack.Pop(backwards).value)
    else
      (Err(NoSuchElementException), forwards, backwards)
  }

  /**
   * The iterator over a queue. Both remaining stacks are `None` until the first
   * call of `Next`, which takes `outgoing` and the queue's cached reversal of
   * `incoming`; `yielded` records what has been returned.
   */
  class Itr<T> {
    const originalQueue: Queue<T>
    var remainingForwardsStack: Option<Stack<T>>
    var remainingBackwardsStack: Option<Stack<T>>
    ghost var yielded: seq<T>

    /** The elements still to be returned, in dequeue order. */
    ghost function Remaining(): seq<T>
      reads this
    {
      if remainingForwardsStack.None? || remainingBackwardsStack.None? then originalQueue.Contents()
      else ImmutableStack.Elems(remainingForwardsStack.value) + ImmutableStack.Elems(remainingBackwardsStack.value)
    }

    ghost predicate Valid()
      reads this, originalQueue
    {
      && originalQueue.Valid()
      && (remainingForwardsStack.None? <==> remainingBackwardsStack.None?)
      && (remainingForwardsStack.None? ==> yielded == [])
      && yielded + Remaining() == originalQueue.Contents()
    }

    constructor (originalQueue: Queue<T>)
      requires originalQueue.Valid()
      ensures Valid() && this.originalQueue == originalQueue
      ensures yielded == [] && Remaining() == originalQueue.Contents()
    {
      this.originalQueue := originalQueue;
      remainingForwardsStack := None;
      remainingBackwardsStack := None;
      yielded := [];
    }

    /** `hasNext()`: false exactly when every element has been returned. */
    method HasNext() returns (b: bool)
      requires Valid()
      ensures b <==> Remaining() != []
    {
      if remainingForwardsStack.None? {
        return !originalQueue.IsEmpty();
      }
      return !ImmutableStack.IsEmpty(remainingForwardsStack.value)
          || !ImmutableStack.IsEmpty(remainingBackwardsStack.value);
    }

    /** `next()`: the next element in dequeue order, or `NoSuchElementException`. */
    method Next() returns (r: Result<T>)
      requires Valid()
      modifies this, originalQueue`incomingReversed
      ensures Valid()
      ensures old(originalQueue.incomingReversed).Some? ==>
        originalQueue.incomingReversed == old(originalQueue.incomingReversed)
      ensures old(remainingForwardsStack).Some? ==>
        originalQueue.incomingReversed == old(originalQueue.incomingReversed)
      ensures old(Remaining()) == [] ==>
        r == Err(NoSuchElementException) && Remaining() == [] && yielded == old(yielded)
      ensures old(Remaining()) != [] ==>
        && r == Ok(old(Remaining())[0])
        && Remaining() == old(Remaining())[1..]
        && yielded == old(yielded) + [r.value]
    {
      ghost var cache := originalQueue.incomingReversed;
      var forwards, backwards;
      if remainingForwardsStack.None? {
        forwards := originalQueue.outgoing;
        backwards := originalQueue.GetIncomingReversed();
        assert cache.Some? ==> originalQueue.incomingReversed == cache;
      } else {
        forwards, backwards := remainingForwardsStack.value, remainingBackwardsStack.value;
      }
      assert cache.Some? || remainingForwardsStack.Some? ==> originalQueue.incomingReversed == cache;
      ghost var rest := ImmutableStack.Elems(forwards) + ImmutableStack.Elems(backwards);
      assert rest == old(Remaining());
      assert originalQueue.Valid() && yielded + rest == originalQueue.Contents();
      var position := Advance(forwards, backwards);
      r := position.0;
      remainingForwardsStack, remainingBackwardsStack := Some(position.1), Some(position.2);
      assert Remaining() == ImmutableStack.Elems(position.1) + ImmutableStack.Elems(position.2);
      if rest == [] {
        assert r == Err(NoSuchElementException) && Remaining() == [];
      } else {
        assert r == Ok(rest[0]) && Remaining() == rest[1..];
        ImmutableStack.TakeFirst(yielded, rest);
        yielded := yielded + [r.value];
      }
    }
  }
}
