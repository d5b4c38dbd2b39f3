/** FIFO queue over a fixed-length backing list used as a circular buffer
    that doubles when full (class ArrayQueue of main.py). */
module ArrayQueues {
  import opened Wrappers

  /** Capacity of every new queue. */
  const DefaultCapacity: nat := 10

  /** The message of the error raised by first and dequeue on an empty queue. */
  const QueueEmpty: Empty := Empty("Queue is empty")

  // ---------------------------------------------------------------------
  // The backing list as a value: slots, front and size
  // ---------------------------------------------------------------------

  /** Index in a backing list of capacity cap of the element at logical
      position i counted from front: (front + i) mod cap. */
  function Slot(cap: nat, front: nat, i: nat): (r: nat)
    requires 0 < cap
    ensures r < cap
  {
    (front + i) % cap
  }

  /** Within one turn of the circle, taking the index modulo cap subtracts
      cap at most once. Dafny also proves this unaided, but the quotient
      assertions below make the proof cheaper and steadier across solver
      seeds. */
  lemma SlotWrap(cap: nat, front: nat, i: nat)
    requires front < cap && i <= cap
    ensures Slot(cap, front, i) == if front + i < cap then front + i else front + i - cap
  {
    var x := front + i;
    if x < cap {
      assert x / cap == 0;
    } else {
      assert x / cap == 1;
    }
  }

  /** Distinct logical positions of one turn occupy distinct slots. */
  lemma SlotInjective(cap: nat, front: nat, i: nat, j: nat)
    requires front < cap && i < cap && j < cap && i != j
    ensures Slot(cap, front, i) != Slot(cap, front, j)
  {
    SlotWrap(cap, front, i);
    SlotWrap(cap, front, j);
  }

  /** The representation invariant: 0 <= size <= capacity, 0 <= front < capacity,
      and the slots at logical positions 0 .. size-1 from front hold elements
      while every other slot holds None. */
  ghost predicate WellFormed<T>(slots: seq<Option<T>>, front: nat, size: nat)
  {
    0 < |slots| && size <= |slots| && front < |slots| &&
    forall i :: 0 <= i < |slots| ==> (slots[Slot(|slots|, front, i)].Some? <==> i < size)
  }

  /** The live elements, oldest first. */
  ghost function Elements<T>(slots: seq<Option<T>>, front: nat, size: nat): (r: seq<T>)
    requires WellFormed(slots, front, size)
    ensures |r| == size
  {
    seq(size, i requires 0 <= i < size => slots[Slot(|slots|, front, i)].value)
  }

  /** The backing list that _resize builds: the live elements copied to
      indices 0 .. size-1 in oldest-to-newest order, None after them. */
  ghost function Resized<T>(slots: seq<Option<T>>, front: nat, size: nat, cap: nat): (r: seq<Option<T>>)
    requires WellFormed(slots, front, size) && size <= cap
    ensures |r| == cap
  {
    seq(cap, k requires 0 <= k < cap => if k < size then slots[Slot(|slots|, front, k)] else None)
  }

  /** _resize keeps the invariant, with front reset to 0, and keeps the live
      elements and their order. */
  lemma ResizePreserves<T>(slots: seq<Option<T>>, front: nat, size: nat, cap: nat)
    requires WellFormed(slots, front, size) && size <= cap && 0 < cap
    ensures forall k :: 0 <= k < size ==> Resized(slots, front, size, cap)[k] == slots[Slot(|slots|, front, k)]
    ensures WellFormed(Resized(slots, front, size, cap), 0, size)
    ensures Elements(Resized(slots, front, size, cap), 0, size) == Elements(slots, front, size)
  {
    var r := Resized(slots, front, size, cap);
    forall i | 0 <= i < cap
      ensures Slot(cap, 0, i) == i
    {
      SlotWrap(cap, 0, i);
    }
    assert WellFormed(r, 0, size);
  }

  /** Writing e at slot (front + size) mod capacity of a queue that is not
      full keeps the invariant with size + 1 and appends e to the elements. */
  lemma EnqueuePreserves<T>(slots: seq<Option<T>>, front: nat, size: nat, e: T)
    requires WellFormed(slots, front, size) && size < |slots|
    ensures WellFormed(slots[Slot(|slots|, front, size) := Some(e)], front, size + 1)
    ensures Elements(slots[Slot(|slots|, front, size) := Some(e)], front, size + 1)
         == Elements(slots, front, size) + [e]
  {
    var cap := |slots|;
    var avail := Slot(cap, front, size);
    var t := slots[avail := Some(e)];
    forall i | 0 <= i < cap && i != size
      ensures t[Slot(cap, front, i)] == slots[Slot(cap, front, i)]
    {
      SlotInjective(cap, front, i, size);
    }
    assert WellFormed(t, front, size + 1);
    var a, b := Elements(t, front, size + 1), Elements(slots, front, size) + [e];
    forall i | 0 <= i < size + 1
      ensures a[i] == b[i]
    {
      if i < size {
        assert t[Slot(cap, front, i)] == slots[Slot(cap, front, i)];
      }
    }
  }

  /** Clearing slot front of a non-empty queue and advancing front by one
      modulo the capacity keeps the invariant with size - 1 and drops the
      oldest element. */
  lemma DequeuePreserves<T>(slots: seq<Option<T>>, front: nat, size: nat)
    requires WellFormed(slots, front, size) && 0 < size
    ensures Slot(|slots|, front, 0) == front
    ensures WellFormed(slots[front := None], Slot(|slots|, front, 1), size - 1)
    ensures Elements(slots[front := None], Slot(|slots|, front, 1), size - 1)
         == Elements(slots, front, size)[1..]
  {
    var cap := |slots|;
    var next := Slot(cap, front, 1);
    var t := slots[front := None];
    SlotWrap(cap, front, 0);
    SlotWrap(cap, front, 1);
    forall i | 0 <= i < cap
      ensures Slot(cap, next, i) == Slot(cap, front, i + 1)
      ensures i + 1 < cap ==> t[Slot(cap, next, i)] == slots[Slot(cap, front, i + 1)]
      ensures i + 1 == cap ==> t[Slot(cap, next, i)] == None
    {
      SlotWrap(cap, next, i);
      SlotWrap(cap, front, i + 1);
      if i + 1 < cap {
        SlotInjective(cap, front, 0, i + 1);
      }
    }
    assert WellFormed(t, next, size - 1);
    var a, b := Elements(t, next, size - 1), Elements(slots, front, size)[1..];
    forall i | 0 <= i < size - 1
      ensures a[i] == b[i]
    {
      assert t[Slot(cap, next, i)] == slots[Slot(cap, front, i + 1)];
    }
  }

  // ---------------------------------------------------------------------
  // The queue object
  // ---------------------------------------------------------------------

  class ArrayQueue<T> {
    /** The backing list (_data); a slot is None when it holds no element. */
    var data: array<Option<T>>
    /** Number of live elements (_size). */
    var size: nat
    /** Index of the oldest element (_front). */
    var front: nat

    ghost predicate Valid()
      reads this, data
    {
      WellFormed(data[..], front, size)
    }

    /** The live elements, oldest first. */
    ghost function Contents(): seq<T>
      reads this, data
      requires Valid()
    {
      Elements(data[..], front, size)
    }

    /** A new queue: capacity DefaultCapacity, every slot None, size 0, front 0. */
    constructor ()
      ensures Valid() && fresh(data)
      ensures data.Length == DefaultCapacity && size == 0 && front == 0
      ensures forall j :: 0 <= j < data.Length ==> data[j] == None
      ensures Contents() == []
    {
      data := new Option<T>[DefaultCapacity](_ => None);
      size := 0;
      front := 0;
    }

    /** __len__: the number of live elements. */
    function Len(): (n: nat)
      reads this, data
      requires Valid()
      ensures n == |Contents()|
      ensures n <= data.Length
    {
      size
    }

    /** is_empty: true exactly when there are no live elements. */
    function IsEmpty(): (b: bool)
      reads this, data
      requires Valid()
      ensures b <==> Contents() == []
      ensures b <==> Len() == 0
    {
      size == 0
    }

    /** first: the oldest element, without removing it; Empty on an empty queue. */
    function First(): (r: Result<T, Empty>)
      reads this, data
      requires Valid()
      ensures r.Failure? <==> Contents() == []
      ensures r.Failure? ==> r.error == QueueEmpty
      ensures r.Success? ==> r.value == Contents()[0] && data[front] == Some(r.value)
    {
      if IsEmpty() then Failure(QueueEmpty)
      else
        SlotWrap(data.Length, front, 0);
        Success(data[front].value)
    }

    /** dequeue: on a non-empty queue, returns the oldest element, clears its
        slot to None, advances front modulo the capacity and decrements size;
        on an empty queue, fails with Empty and changes nothing. */
    method Dequeue() returns (r: Result<T, Empty>)
      requires Valid()
      modifies this, data
      ensures Valid() && data == old(data)
      ensures r == old(First())
      ensures old(size) == 0 ==>
                size == 0 && front == old(front) && data[..] == old(data[..])
      ensures old(size) > 0 ==>
                size == old(size) - 1 &&
                front == Slot(data.Length, old(front), 1) &&
                data[..] == old(data[..])[old(front) := None] &&
                Contents() == old(Contents())[1..]
    {
      if IsEmpty() {
        return Failure(QueueEmpty);
      }
      ghost var slots := data[..];
      DequeuePreserves(slots, front, size);
      var answer := data[front];
      data[front] := None;
      front := (front + 1) % data.Length;
      size := size - 1;
      assert data[..] == slots[old(front) := None];
      r := Success(answer.value);
    }

    /** enqueue: when the queue is full, first doubles the capacity through
        _resize; then writes e at slot (front + size) mod capacity and
        increments size, so e becomes the newest element. */
    method Enqueue(e: T)
      requires Valid()
      modifies this, data
      ensures Valid()
      ensures Contents() == old(Contents()) + [e]
      ensures size == old(size) + 1
      ensures old(size) == old(data.Length) ==>
                fresh(data) && data.Length == 2 * old(data.Length) && front == 0 &&
                data[..] == Resized(old(data[..]), old(front), old(size), data.Length)[old(size) := Some(e)]
      ensures old(size) < old(data.Length) ==>
                data == old(data) && front == old(front) &&
                data[..] == old(data[..])[Slot(data.Length, old(front), old(size)) := Some(e)]
    {
      ghost var before := Contents();
      if size == data.Length {
        Resize(2 * data.Length);
        assert Slot(data.Length, 0, size) == size by {
          SlotWrap(data.Length, 0, size);
        }
      }
      ghost var slots, n := data[..], size;
      assert WellFormed(slots, front, n) && Elements(slots, front, n) == before;
      var avail := (front + size) % data.Length;
      data[avail] := Some(e);
      size := size + 1;
      assert Valid() && Contents() == before + [e] by {
        assert data[..] == slots[Slot(|slots|, front, n) := Some(e)];
        EnqueuePreserves(slots, front, n, e);
      }
    }

    /** _resize: allocates a backing list of capacity cap filled with None,
        copies the live elements to indices 0 .. size-1 in oldest-to-newest
        order and resets front to 0. */
    method Resize(cap: nat)
      requires Valid() && size <= cap && 0 < cap
      modifies this
      ensures Valid() && fresh(data) && data.Length == cap
      ensures forall k :: 0 <= k < size ==> data[k] == old(data[Slot(data.Length, front, k)])
      ensures data[..] == Resized(old(data[..]), old(front), old(size), cap)
      ensures front == 0 && size == old(size)
      ensures Contents() == old(Contents())
    {
      var previous := data;
      ghost var slots := previous[..];
      data := new Option<T>[cap](_ => None);
      var walk := front;
      for k := 0 to size
        modifies data
        invariant walk == Slot(previous.Length, front, k)
        invariant forall j :: 0 <= j < k ==> data[j] == previous[Slot(previous.Length, front, j)]
        invariant forall j :: k <= j < cap ==> data[j] == None
      {
        data[k] := previous[walk];
        assert (1 + walk) % previous.Length == Slot(previous.Length, front, k + 1) by {
          SlotWrap(previous.Length, front, k);
          SlotWrap(previous.Length, front, k + 1);
          SlotWrap(previous.Length, walk, 1);
        }
        walk := (1 + walk) % previous.Length;
      }
      assert data[..] == Resized(slots, front, size, cap) by {
        ghost var r := Resized(slots, front, size, cap);
        assert forall j :: 0 <= j < cap ==> data[j] == r[j];
      }
      ResizePreserves(slots, front, size, cap);
      front := 0;
    }
  }
}
