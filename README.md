# ArrayQueue and ArrayStack of the Apple-Tree project, in Dafny

This project models the two containers at the top of `main.py`:

- **ArrayQueue**, a FIFO queue. Its backing list has a fixed length and is
  used as a circular buffer. The fields are `_data`, `_size` and `_front`.
  `enqueue` writes at `(front + size) mod capacity`. When the list is full,
  `enqueue` first doubles the capacity through `_resize`, which copies the
  live elements to indices `0 .. size-1` and resets `front` to 0. `dequeue`
  reads the slot at `front`, clears it to `None`, advances `front` modulo the
  capacity and decrements `size`.
- **ArrayStack**, a LIFO stack kept in a Python list, using `append` and `pop`.

Files:

- `wrappers.dfy`: module `Wrappers`. It holds `Option` (a queue slot: `None` or
  an element), `Result` and the `Empty` error together with its message.
- `array_queue.dfy`: module `ArrayQueues`. First comes the backing list as a
  value. `Slot` is the index arithmetic, `WellFormed` is the representation
  invariant and `Elements` gives the live elements oldest first. `Resized` is
  the list that `_resize` builds. Three lemmas show that the resize, enqueue
  and dequeue steps keep the invariant and what each does to the elements.
  Then comes the class `ArrayQueue`. It has an `array<Option<T>>` and the
  fields `size` and `front`. Its methods change those fields in place, as the
  source does, and each one states its whole new state.
- `array_stack.dfy`: module `ArrayStacks`, the class `ArrayStack` over a
  `seq<T>` field that `Push` and `Pop` reassign.
- `clients.dfy`: module `Clients`. These are callers that rely only on the
  contracts: the FIFO law across any number of resizes, the 15-element growth
  scenario, the LIFO law, push-then-pop, first-then-dequeue, and failure on
  empty containers.

The queue invariant is stated over logical positions `i < capacity`. The slot
`(front + i) mod capacity` holds an element exactly when `i < size`. So every
slot outside the live range holds `None`. This holds because the list starts
as `[None] * 10`, `_resize` fills its new list with `None`, and `dequeue`
clears the slot it vacates.

The source raises `Empty('Queue is empty')` and `Empty('Stack is empty')`.
Here these are `Failure(Empty("Queue is empty"))` and
`Failure(Empty("Stack is empty"))` results. On failure the operation changes
nothing. Python ints are unbounded, like Dafny's, so no wrap-around is
modelled.

The code has no minimum capacity for a capacity of 0: the capacity starts at
10 (main.py:7) and only doubles (main.py:42), so the model has no such rule
either.

## Model

| member | source | states |
|---|---|---|
| ArrayQueues.ArrayQueue.constructor | main.py:3-9 | a new queue has capacity 10, every slot None, size 0, front 0; it satisfies the invariant and holds no elements |
| ArrayQueues.ArrayQueue.Len | main.py:11-13 | `__len__` is the number of live elements and never exceeds the capacity |
| ArrayQueues.ArrayQueue.IsEmpty | main.py:15-17 | `is_empty` holds exactly when there are no live elements, i.e. exactly when `__len__` is 0 |
| ArrayQueues.ArrayQueue.First | main.py:19-25 | `first` fails with Empty("Queue is empty") exactly on an empty queue; otherwise it returns the oldest element, which is the element in slot `front`; it reads the state and changes nothing |
| ArrayQueues.ArrayQueue.Dequeue | main.py:27-37 | `dequeue` returns what `first` returned; on a non-empty queue it clears slot `front` to None, sets front to (front + 1) mod capacity, decrements size, keeps the invariant and leaves the old contents without their head; on an empty queue it changes nothing |
| ArrayQueues.ArrayQueue.Enqueue | main.py:39-45 | `enqueue` keeps the invariant and appends e to the contents, incrementing size; it reallocates only when size == capacity, and then to exactly twice the capacity with front 0 and e at index old size; otherwise it writes e at slot (front + size) mod capacity of the same list |
| ArrayQueues.ArrayQueue.Resize | main.py:47-55 | `_resize(cap)` with size <= cap builds a fresh list of length cap with new[k] == old[(front + k) mod oldcap] for k < size and None after; it sets front to 0 and keeps size, the invariant and the contents |
| ArrayQueues.Slot | main.py:43 | the slot index (front + i) mod capacity is always inside the list |
| ArrayQueues.SlotWrap | main.py:54 | within one turn, (front + i) mod capacity subtracts the capacity at most once; this relates the running `walk` index to logical positions |
| ArrayQueues.SlotInjective | main.py:43 | distinct logical positions within one turn occupy distinct slots, so writing the new element overwrites no live element |
| ArrayQueues.ResizePreserves | main.py:47-55 | the re-linearised list satisfies the invariant with front 0 and gives the same elements in the same order |
| ArrayQueues.EnqueuePreserves | main.py:43-45 | writing e at (front + size) mod capacity of a non-full queue and incrementing size keeps the invariant and appends e to the elements |
| ArrayQueues.DequeuePreserves | main.py:33-36 | clearing slot front of a non-empty queue, advancing front modulo the capacity and decrementing size keeps the invariant and drops exactly the oldest element |
| ArrayStacks.ArrayStack.constructor | main.py:61-63 | a new stack holds no elements |
| ArrayStacks.ArrayStack.Len | main.py:65-67 | `__len__` is the number of elements in the list |
| ArrayStacks.ArrayStack.IsEmpty | main.py:69-71 | `is_empty` holds exactly when the stack holds no element, i.e. exactly when `__len__` is 0 |
| ArrayStacks.ArrayStack.Push | main.py:73-75 | `push(e)` appends e at the end of the list and changes nothing else |
| ArrayStacks.ArrayStack.Top | main.py:77-83 | `top` fails with Empty("Stack is empty") exactly on an empty stack; otherwise it returns the last element; it changes nothing |
| ArrayStacks.ArrayStack.Pop | main.py:85-91 | `pop` returns what `top` returned; on success the old list is the new list followed by the returned element; on an empty stack it changes nothing |
| Clients.Filled | main.py:39-55 | enqueueing xs into a new queue gives contents xs; the capacity is 10 up to 10 elements and 20 from 11 to 20 elements |
| Clients.Drain | main.py:27-37 | dequeueing until empty returns the contents oldest first and leaves the queue empty |
| Clients.EnqueueAllDequeueAll | main.py:27-55 | FIFO law: for every xs, enqueueing all of xs into a new queue and dequeueing everything returns xs, across any number of resizes |
| Clients.GrowthScenario | main.py:39-55 | enqueueing 1..15 into a new queue resizes it once, to 20; dequeueing everything yields 1..15 in order and leaves size 0 |
| Clients.PushAllPopAll | main.py:73-91 | LIFO law: for every xs, pushing all of xs and popping until empty returns xs reversed |
| Clients.StackScenario | main.py:73-91 | pushing a, b, c and popping three times yields c, b, a and leaves the stack empty |
| Clients.PushThenPop | main.py:73-91 | `push(e)` followed by `pop()` returns e and restores the prior contents |
| Clients.FirstThenDequeue | main.py:19-37 | `first` returns the same result as the `dequeue` that follows it; both fail exactly on an empty queue |
| Clients.EmptyAccessScenario | main.py:19-91 | `first`, `dequeue`, `top` and `pop` on new containers fail with Empty and the source's messages |

## Left out

- The apple simulation (`AppleTree`, `Basket`, `Wagon`, `Storage`, `Worker` and the top-level time loop, main.py:94-201). It only delegates to the two containers, prints to the console and is driven by fixed loops over module-level globals.
- Python exception semantics. `Empty` is not defined in `main.py`, so raising it would actually raise `NameError`. The model gives the evidently intended error as a `Failure` result with the same message.
- ArrayQueue.Resize: it requires `cap > 0` as well as the source's stated assumption `cap >= len(self)`. The invariant needs `front < capacity`. The only caller passes twice the current capacity, which is at least 20.
- The growth of the Python list behind `ArrayStack` (`append`/`pop`). The source has no growth policy of its own, so the stack is a sequence and `push` is sequence append.
- Mutation of the class attribute `DEFAULT_CAPACITY`. It is a constant here.
- Aliasing between containers. Each queue's backing array is fresh when it is allocated, and no other object is modelled to share it.
- Shrinking, iteration and thread-safety. None of these exist in the code.
