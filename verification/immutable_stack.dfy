/**
 * A persistent, singly-linked LIFO stack. Every operation that looks like a
 * change returns a new stack; `Push` shares the receiver as the new node's tail.
 */
module ImmutableStack {
  import opened Outcomes

  /** `EmptyStack` is the shared empty stack; a `Node`'s tail is never absent. */
  datatype Stack<T> = EmptyStack | Node(head: T, tail: Stack<T>)

  /** The elements of `s`, read from the top down. */
  function Elems<T>(s: Stack<T>): seq<T>
  {
    match s
    case EmptyStack => []
    case Node(h, t) => [h] + Elems(t)
  }

  /** The sequence `s` read backwards. */
  function Reversed<T>(s: seq<T>): seq<T>
  {
    if s == [] then [] else Reversed(s[1..]) + [s[0]]
  }

  lemma {:induction false} ReversedLength<T>(s: seq<T>)
    ensures |Reversed(s)| == |s|
  {
    if s != [] {
      ReversedLength(s[1..]);
    }
  }

  lemma {:induction false} ReversedAppend<T>(a: seq<T>, b: seq<T>)
    ensures Reversed(a + b) == Reversed(b) + Reversed(a)
  {
    if a == [] {
      assert a + b == b;
    } else {
      assert (a + b)[1..] == a[1..] + b;
      ReversedAppend(a[1..], b);
    }
  }

  /** Reading a sequence backwards twice gives it back. */
  lemma {:induction false} ReversedInvolution<T>(s: seq<T>)
    ensures Reversed(Reversed(s)) == s
  {
    if s != [] {
      ReversedAppend(Reversed(s[1..]), [s[0]]);
      ReversedInvolution(s[1..]);
      assert Reversed([s[0]]) == [s[0]];
    }
  }

  /** A stack is determined by its elements. */
  lemma {:induction false} ElemsInjective<T>(a: Stack<T>, b: Stack<T>)
    requires Elems(a) == Elems(b)
    ensures a == b
  {
    match a
    case EmptyStack =>
    case Node(h, t) =>
      assert Elems(b)[0] == h && Elems(b)[1..] == Elems(t);
      ElemsInjective(t, b.tail);
  }

  /** `empty()`: the empty stack upon which all stacks are built. */
  function Empty<T>(): (r: Stack<T>)
    ensures Elems(r) == [] && IsEmpty(r)
  {
    EmptyStack
  }

  /** `isEmpty()`: the empty stack is recognised by its tag, without traversal. */
  function IsEmpty<T>(s: Stack<T>): (b: bool)
    ensures b <==> Elems(s) == []
  {
    s.EmptyStack?
  }

  /** `push(value)`: a new node on top of `s`; `s` itself becomes its tail. */
  function Push<T>(s: Stack<T>, value: T): (r: Stack<T>)
    ensures Elems(r) == [value] + Elems(s)
    ensures !IsEmpty(r)
    ensures Pop(r) == Ok(s) && Peek(r) == Ok(value)
  {
    Node(value, s)
  }

  /** `pop()`: the stack under the top element, or `EmptyStackException`. */
  function Pop<T>(s: Stack<T>): (r: Result<Stack<T>>)
    ensures r.Err? <==> Elems(s) == []
    ensures r.Err? ==> r.error == EmptyStackException
    ensures r.Ok? ==> Elems(r.value) == Elems(s)[1..]
  {
    if IsEmpty(s) then Err(EmptyStackException) else Ok(s.tail)
  }

  /** `peek()`: the top element, or `EmptyStackException`. */
  function Peek<T>(s: Stack<T>): (r: Result<T>)
    ensures r.Err? <==> Elems(s) == []
    ensures r.Err? ==> r.error == EmptyStackException
    ensures r.Ok? ==> r.value == Elems(s)[0]
  {
    if IsEmpty(s) then Err(EmptyStackException) else Ok(s.head)
  }

  /** `clear()`: the empty stack, whatever the receiver. */
  function Clear<T>(s: Stack<T>): (r: Stack<T>)
    ensures Elems(r) == []
    ensures r == Empty()
  {
    Empty()
  }

  /** `create(item)`: a stack holding just `item`. */
  function Create<T>(item: T): (r: Stack<T>)
    ensures Elems(r) == [item]
  {
    Push(Empty(), item)
  }

  /**
   * `create(items...)` and `createAll(items)`: push the items in input order,
   * so the last item ends up on top.
   */
  method CreateAll<T>(items: seq<T>) returns (stack: Stack<T>)
    ensures Elems(stack) == Reversed(items)
    ensures items != [] ==> Peek(stack) == Ok(items[|items| - 1])
  {
    stack := Empty();
    for i := 0 to |items|
      invariant Elems(stack) == Reversed(items[..i])
    {
      assert items[..i + 1] == items[..i] + [items[i]];
      ReversedAppend(items[..i], [items[i]]);
      stack := Push(stack, items[i]);
    }
    assert items[..|items|] == items;
    if items != [] {
      assert items == items[..|items| - 1] + [items[|items| - 1]];
      ReversedAppend(items[..|items| - 1], [items[|items| - 1]]);
    }
  }

  /**
   * `reverse()`: drains `s` with pop/peek and pushes each element onto a
   * fresh stack; `s` is left as it was.
   */
  method Reverse<T>(s: Stack<T>) returns (result: Stack<T>)
    ensures Elems(result) == Reversed(Elems(s))
    ensures |Elems(result)| == |Elems(s)|
  {
    result := Clear(s);
    var f := s;
    while !IsEmpty(f)
      invariant Reversed(Elems(f)) + Elems(result) == Reversed(Elems(s))
      decreases |Elems(f)|
    {
      result := Push(result, Peek(f).value);
      f := Pop(f).value;
    }
    ReversedLength(Elems(s));
  }

  /** Reversing a stack twice gives back the very same stack value. */
  lemma ReverseTwice<T>(s: Stack<T>, once: Stack<T>, twice: Stack<T>)
    requires Elems(once) == Reversed(Elems(s))
    requires Elems(twice) == Reversed(Elems(once))
    ensures twice == s
  {
    ReversedInvolution(Elems(s));
    ElemsInjective(twice, s);
  }

  /** Moving the first remaining element to the end of what was yielded keeps the whole. */
  lemma TakeFirst<T>(yielded: seq<T>, rest: seq<T>)
    requires rest != []
    ensures (yielded + [rest[0]]) + rest[1..] == yielded + rest
  {
  }

  /**
   * The iterator over a stack. `remaining` is `None` until the first call of
   * `Next`, as the Java field is `null`; `yielded` records what has been returned.
   */
  class Itr<T> {
    const originalStack: Stack<T>
    var remainingStack: Option<Stack<T>>
    ghost var yielded: seq<T>

    /** The elements still to be returned, top to bottom. */
    ghost function Remaining(): seq<T>
      reads this
    {
      if remainingStack.None? then Elems(originalStack) else Elems(remainingStack.value)
    }

    ghost predicate Valid()
      reads this
    {
      && yielded + Remaining() == Elems(originalStack)
      && (remainingStack.None? ==> yielded == [])
    }

    constructor (originalStack: Stack<T>)
      ensures Valid() && this.originalStack == originalStack
      ensures yielded == [] && Remaining() == Elems(originalStack)
    {
      this.originalStack := originalStack;
      remainingStack := None;
      yielded := [];
    }

    /** `hasNext()`: false exactly when every element has been returned. */
    method HasNext() returns (b: bool)
      requires Valid()
      ensures b <==> Remaining() != []
    {
      if remainingStack.None? {
        return !IsEmpty(originalStack);
      }
      return !IsEmpty(remainingStack.value);
    }

    /** `next()`: the next element from the top, or `NoSuchElementException`. */
    method Next() returns (r: Result<T>)
      requires Valid()
      modifies this
      ensures Valid()
      ensures old(Remaining()) == [] ==>
        r == Err(NoSuchElementException) && Remaining() == [] && yielded == old(yielded)
      ensures old(Remaining()) != [] ==>
        && r == Ok(old(Remaining())[0])
        && Remaining() == old(Remaining())[1..]
        && yielded == old(yielded) + [r.value]
    {
      var rest := if remainingStack.None? then originalStack else remainingStack.value;
      if IsEmpty(rest) {
        remainingStack := Some(rest);
        r := Err(NoSuchElementException);
      } else {
        var result := Peek(rest).value;
        var tail := Pop(rest).value;
        remainingStack := Some(tail);
        TakeFirst(yielded, Elems(rest));
        yielded := yielded + [result];
        r := Ok(result);
      }
    }
  }

  /** `iterator()`: a fresh traversal from the top of `s`. */
  method Iterator<T>(s: Stack<T>) returns (it: Itr<T>)
    ensures fresh(it) && it.Valid() && it.Remaining() == Elems(s) && it.yielded == []
  {
    it := new Itr(s);
  }
}
