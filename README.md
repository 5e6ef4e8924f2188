# ImmutableQueue in Dafny

A model of `ImmutableQueue<T>`, a persistent first-in-first-out queue, and of
the `ImmutableStack<T>` cons list it is built from. Nothing is ever mutated:
`enQueue` and `deQueue` return new queues and leave the receiver as it was.

- `ImmutableStack` (`immutable_stack.dfy`): the stack is a datatype
  `Empty | Cons(head, tail)`. `ToSeq` lists its elements top first. `push` and
  `pop` are functions. `reverse` is a method whose `while` loop pushes every
  element onto a fresh empty stack, as the Java loop does. It is proved equal to
  the function `Reversed`, which is the function the queue calls.
- `ImmutableQueue` (`immutable_queue.dfy`): a queue is a pair `(input, output)`
  of stacks. Its contents are `ToSeq(output) + SeqReverse(ToSeq(input))`.
  `enQueue`, `deQueue`, `head` and `isEmpty` are functions, each with a
  contract stated against those contents.
- `QueueProperties` (`queue_properties.dfy`): properties that span several
  calls. Draining a queue with `head`/`deQueue` yields its contents in order.
  Enqueued elements come out in the order they went in. The scenarios of the
  unit tests hold.
- `Outcomes` (`outcomes.dfy`): Java's `null` is `Option.None`. The two exceptions
  are `Result.Failure(IllegalArgument)` and `Result.Failure(NoSuchElement)`.

Two places where the source cannot be followed literally:

- `pop` dereferences a null `stackTail` on the empty stack (line 171). The
  model makes a non-empty stack a precondition of `Pop`. The queue never calls
  `pop`; it reads `stackTail` directly.
- The stack's `head()` calls itself forever (line 151). `Top` returns the
  stored head field instead, which is null (`None`) on the empty stack.

## Model

| member | source | states |
|---|---|---|
| `ImmutableStack.IsEmpty` | src/com/tsorman/immutable_queue/ImmutableQueue.java:141-143 | a stack is empty exactly when it holds no elements |
| `ImmutableStack.Top` | src/com/tsorman/immutable_queue/ImmutableQueue.java:149-152 | the stored head field is the top element, and it is null (`None`) exactly on the empty stack |
| `ImmutableStack.Push` | src/com/tsorman/immutable_queue/ImmutableQueue.java:159-164 | a null element fails with IllegalArgument, and no other element does; otherwise the new stack's elements are `t` followed by the old ones, and the receiver is shared as its tail |
| `ImmutableStack.Pop` | src/com/tsorman/immutable_queue/ImmutableQueue.java:170-172 | on a non-empty stack, the result holds the elements below the top |
| `ImmutableStack.ReverseOnto` | src/com/tsorman/immutable_queue/ImmutableQueue.java:181-184 | moving each element of a stack, top first, onto an accumulator gives the reversed elements followed by the accumulator's elements |
| `ImmutableStack.Reversed` | src/com/tsorman/immutable_queue/ImmutableQueue.java:178-186 | the reversed stack's elements are the receiver's in reverse order (same length, element `i` is element `n-1-i`) |
| `ImmutableStack.Reverse` | src/com/tsorman/immutable_queue/ImmutableQueue.java:178-186 | the loop returns a stack whose elements are the receiver's in reverse order; it is the stack `Reversed` describes; the receiver is a value and is not changed |
| `ImmutableQueue.EmptyQueue` | src/com/tsorman/immutable_queue/ImmutableQueue.java:25-28 | the new queue holds nothing |
| `ImmutableQueue.IsEmpty` | src/com/tsorman/immutable_queue/ImmutableQueue.java:100-103 | "both stacks are empty" holds exactly when the queue holds no elements |
| `ImmutableQueue.EnQueue` | src/com/tsorman/immutable_queue/ImmutableQueue.java:46-52 | a null element fails with IllegalArgument, and no other element does; otherwise the contents are the old contents followed by `t`, and the output stack is reused unchanged |
| `ImmutableQueue.DeQueue` | src/com/tsorman/immutable_queue/ImmutableQueue.java:62-72 | fails with NoSuchElement exactly on an empty queue; otherwise the contents lose their first element; the input stack is kept when the output stack is non-empty, and when the output stack was empty the input becomes empty and the output becomes the reversed input without its top |
| `ImmutableQueue.Head` | src/com/tsorman/immutable_queue/ImmutableQueue.java:80-93 | fails with NoSuchElement exactly on an empty queue; otherwise returns the first element of the contents, in both branches |
| `QueueProperties.EnQueueAll` | src/com/tsorman/immutable_queue/ImmutableQueue.java:46-51 | enqueueing a sequence of elements one by one appends that sequence to the contents |
| `QueueProperties.DrainYieldsContents` | src/com/tsorman/immutable_queue/ImmutableQueue.java:62-93 | calling head and then deQueue until isEmpty holds reads exactly the contents, oldest first, whatever the split between the stacks |
| `QueueProperties.FifoOrder` | src/com/tsorman/immutable_queue/ImmutableQueue.java:46-93 | elements enqueued on an empty queue are read back in the order they were enqueued |
| `QueueProperties.HeadAfterEnQueues` | test/com/tsorman/immutable_queue/ImmutableQueueTest.java:73-81 | after enqueueing a non-empty sequence on an empty queue, head is its first element; with nothing enqueued head fails |
| `QueueProperties.HeadBranches` | src/com/tsorman/immutable_queue/ImmutableQueue.java:87-92 | head is the output stack's top when there is one, and otherwise the bottom element of the input stack |
| `QueueProperties.EnQueueDeQueueRoundTrip` | test/com/tsorman/immutable_queue/ImmutableQueueTest.java:43-62 | one enqueue on an empty queue gives a non-empty queue, one deQueue of that gives an empty queue (the queue enqueued on stays empty because it is a value) |
| `QueueProperties.TwoElementScenario` | test/com/tsorman/immutable_queue/ImmutableQueueTest.java:84-101 | for any two elements `a`, `b` of any type: head is `a`, after one deQueue head is `b`, after a second deQueue the queue is empty and head fails with NoSuchElement |
| `QueueProperties.StringScenario` | test/com/tsorman/immutable_queue/ImmutableQueueTest.java:84-101 | the scenario with "First" and "Second" |
| `QueueProperties.IntegerScenario` | test/com/tsorman/immutable_queue/ImmutableQueueTest.java:105-122 | the scenario with 1 and 2 |

## Left out

- Object identity: Java references become Dafny values. The model does not
  capture that two queues are distinct objects (`assertNotEquals` in the
  tests), or that nodes are shared by reference rather than equal by value.
  "The receiver is not modified" and "repeated `head` calls return the same
  element" hold because every operation is a function of values.
- Amortised cost: the model is functional only. It does not count the O(n)
  reversal on lines 70 and 89, and it does not show that `head` recomputes the
  reversal on every call.
- The infinite recursion in the stack's `head()` (line 151) is not modelled.
  `Top` returns the stored field, which is what the method is meant to do and
  what the queue reads at line 92.
- `Pop` on an empty stack: the source throws a `NullPointerException`, which is
  a precondition here.
- Null as the empty-stack marker: the empty stack is the constructor `Empty`.
  No stack node can hold a null element in the model. In the source this holds
  because `push` rejects null, and it is why `isEmpty` can test the head for
  null. The null check survives only as the `IllegalArgument` case of `Push` and `EnQueue`.
- The `Queue<T>` interface file is not part of this model.
