/** What callers of the two containers can rely on: the FIFO and LIFO laws,
    growth of the queue past its capacity, and failure on empty access. */
module Clients {
  import opened Wrappers
  import opened ArrayQueues
  import opened ArrayStacks

  /** A new queue into which xs has been enqueued, oldest first. */
  method Filled<T>(xs: seq<T>) returns (q: ArrayQueue<T>)
    ensures fresh(q) && fresh(q.data) && q.Valid()
    ensures q.Contents() == xs
    ensures |xs| <= DefaultCapacity ==> q.data.Length == DefaultCapacity
    ensures DefaultCapacity < |xs| <= 2 * DefaultCapacity ==> q.data.Length == 2 * DefaultCapacity
  {
    q := new ArrayQueue<T>();
    for i := 0 to |xs|
      invariant fresh(q) && fresh(q.data) && q.Valid()
      invariant q.Contents() == xs[..i]
      invariant i <= 2 * DefaultCapacity ==>
                  q.data.Length == if i <= DefaultCapacity then DefaultCapacity else 2 * DefaultCapacity
    {
      q.Enqueue(xs[i]);
    }
  }

  /** Dequeueing until the queue is empty yields its contents, oldest first. */
  method Drain<T>(q: ArrayQueue<T>) returns (out: seq<T>)
    requires q.Valid()
    modifies q, q.data
    ensures q.Valid() && q.Contents() == [] && q.data == old(q.data)
    ensures out == old(q.Contents())
  {
    out := [];
    while !q.IsEmpty()
      invariant q.Valid() && q.data == old(q.data)
      invariant out + q.Contents() == old(q.Contents())
      decreases q.Len()
    {
      var r := q.Dequeue();
      out := out + [r.value];
    }
  }

  /** FIFO law: enqueueing xs into a new queue (growing it as often as
      needed) and then dequeueing until it is empty yields xs in order. */
  method EnqueueAllDequeueAll<T>(xs: seq<T>) returns (out: seq<T>)
    ensures out == xs
  {
    var q := Filled(xs);
    out := Drain(q);
  }

  /** Enqueueing 1 .. 15 into a new queue of capacity 10 resizes it once, to
      20; dequeueing everything yields 1 .. 15 in order and leaves it empty. */
  method GrowthScenario() returns (capacity: nat, out: seq<int>, remaining: nat)
    ensures capacity == 20
    ensures out == [1, 2, 3, 4, 5, 6, 7, 8, 9, 10, 11, 12, 13, 14, 15]
    ensures remaining == 0
  {
    var q := Filled([1, 2, 3, 4, 5, 6, 7, 8, 9, 10, 11, 12, 13, 14, 15]);
    capacity := q.data.Length;
    out := Drain(q);
    remaining := q.Len();
  }

  /** LIFO law: pushing xs onto a new stack and then popping until it is
      empty yields xs in reverse order. */
  method PushAllPopAll<T>(xs: seq<T>) returns (out: seq<T>)
    ensures |out| == |xs|
    ensures forall i :: 0 <= i < |xs| ==> out[i] == xs[|xs| - 1 - i]
  {
    var s := new ArrayStack<T>();
    for i := 0 to |xs|
      invariant fresh(s) && s.data == xs[..i]
    {
      s.Push(xs[i]);
    }
    out := [];
    while !s.IsEmpty()
      invariant fresh(s) && |out| + s.Len() == |xs| && s.data == xs[..s.Len()]
      invariant forall i :: 0 <= i < |out| ==> out[i] == xs[|xs| - 1 - i]
      decreases s.Len()
    {
      var r := s.Pop();
      out := out + [r.value];
    }
  }

  /** Pushing a, b, c and popping three times yields c, b, a and leaves the
      stack empty. */
  method StackScenario<T>(a: T, b: T, c: T) returns (first: T, second: T, third: T, empty: bool)
    ensures first == c && second == b && third == a && empty
  {
    var s := new ArrayStack<T>();
    s.Push(a);
    s.Push(b);
    s.Push(c);
    var r1 := s.Pop();
    var r2 := s.Pop();
    var r3 := s.Pop();
    first, second, third := r1.value, r2.value, r3.value;
    empty := s.IsEmpty();
  }

  /** push(e) followed by pop() returns e and restores the prior contents. */
  method PushThenPop<T>(s: ArrayStack<T>, e: T) returns (r: Result<T, Empty>)
    modifies s
    ensures r == Success(e) && s.data == old(s.data)
  {
    s.Push(e);
    r := s.Pop();
  }

  /** first returns what dequeue then removes, and leaves the queue as it was. */
  method FirstThenDequeue<T>(q: ArrayQueue<T>) returns (peeked: Result<T, Empty>, removed: Result<T, Empty>)
    requires q.Valid()
    modifies q, q.data
    ensures peeked == removed
    ensures peeked.Failure? <==> old(q.Contents()) == []
  {
    peeked := q.First();
    removed := q.Dequeue();
  }

  /** first, dequeue, top and pop on new containers fail with Empty. */
  method EmptyAccessScenario<T>() returns (first: Result<T, Empty>, dequeued: Result<T, Empty>,
                                           top: Result<T, Empty>, popped: Result<T, Empty>)
    ensures first == Failure(Empty("Queue is empty")) && dequeued == Failure(Empty("Queue is empty"))
    ensures top == Failure(Empty("Stack is empty")) && popped == Failure(Empty("Stack is empty"))
  {
    var q := new ArrayQueue<T>();
    first := q.First();
    dequeued := q.Dequeue();
    var s := new ArrayStack<T>();
    top := s.Top();
    popped := s.Pop();
  }
}
