/** What a client of the queue observes over many calls: first in, first out. */
module QueueProperties {
  import opened Outcomes
  import ImmutableStack
  import opened ImmutableQueue

  /** The queue a client obtains by enqueueing the elements of `xs` in order. */
  function EnQueueAll<T>(q: Queue<T>, xs: seq<T>): (r: Queue<T>)
    ensures Contents(r) == Contents(q) + xs
    decreases |xs|
  {
    if xs == [] then q
    else
      var next := EnQueue(q, Some(xs[0])).value;
      assert Contents(next) + xs[1..] == Contents(q) + xs;
      EnQueueAll(next, xs[1..])
  }

  /** The elements a client reads by calling head and then deQueue until
      isEmpty holds. */
  function Drain<T>(q: Queue<T>): seq<T>
    decreases |Contents(q)|
  {
    if IsEmpty(q) then [] else [Head(q).value] + Drain(DeQueue(q).value)
  }

  /** Reading and removing heads until the queue is empty yields exactly the
      contents, oldest first, whatever the split between the two stacks. */
  lemma {:induction false} DrainYieldsContents<T>(q: Queue<T>)
    ensures Drain(q) == Contents(q)
    decreases |Contents(q)|
  {
    if !IsEmpty(q) {
      DrainYieldsContents(DeQueue(q).value);
    }
  }

  /** Elements leave the queue in the order they were enqueued. */
  lemma FifoOrder<T>(xs: seq<T>)
    ensures Drain(EnQueueAll(EmptyQueue(), xs)) == xs
  {
    DrainYieldsContents(EnQueueAll(EmptyQueue(), xs));
  }

  /** After enqueueing `xs` on an empty queue, head is the first element of
      `xs`, and fails when `xs` is empty. */
  lemma HeadAfterEnQueues<T>(xs: seq<T>)
    ensures xs == [] ==> Head(EnQueueAll(EmptyQueue(), xs)) == Failure(NoSuchElement)
    ensures xs != [] ==> Head(EnQueueAll(EmptyQueue(), xs)) == Success(xs[0])
  {
  }

  /** head reads the output stack's top while there is one, and otherwise the
      bottom of the input stack, the element the reversal brings to the top. */
  lemma HeadBranches<T>(q: Queue<T>)
    ensures !ImmutableStack.IsEmpty(q.output) ==> Head(q) == Success(q.output.head)
    ensures ImmutableStack.IsEmpty(q.output) && !ImmutableStack.IsEmpty(q.input) ==>
      var elements := ImmutableStack.ToSeq(q.input);
      Head(q) == Success(elements[|elements| - 1])
  {
  }

  /** Enqueueing one element on an empty queue and dequeueing it again gives
      an empty queue. */
  lemma EnQueueDeQueueRoundTrip<T>(x: T)
    ensures EnQueue(EmptyQueue(), Some(x)).Success?
    ensures var one := EnQueue(EmptyQueue(), Some(x)).value;
      && !IsEmpty(one)
      && DeQueue(one).Success?
      && IsEmpty(DeQueue(one).value)
  {
  }

  /** The test scenario: enqueue `a` then `b` on an empty queue; head is `a`;
      after one deQueue head is `b`; after a second the queue is empty and
      head fails. */
  predicate TwoElementScenarioHolds<T(==)>(a: T, b: T)
  {
    var q1 := EnQueue(EmptyQueue(), Some(a));
    && q1.Success?
    && var q2 := EnQueue(q1.value, Some(b));
    && q2.Success?
    && Head(q2.value) == Success(a)
    && var q3 := DeQueue(q2.value);
    && q3.Success?
    && Head(q3.value) == Success(b)
    && var q4 := DeQueue(q3.value);
    && q4.Success?
    && IsEmpty(q4.value)
    && Head(q4.value) == Failure(NoSuchElement)
  }

  /** The scenario holds for any two elements, whatever their type. */
  lemma TwoElementScenario<T>(a: T, b: T)
    ensures TwoElementScenarioHolds(a, b)
  {
  }

  /** The scenario with the strings "First" and "Second". */
  lemma StringScenario()
    ensures TwoElementScenarioHolds("First", "Second")
  {
    TwoElementScenario("First", "Second");
  }

  /** The same scenario with the integers 1 and 2. */
  lemma IntegerScenario()
    ensures TwoElementScenarioHolds(1, 2)
  {
    TwoElementScenario(1, 2);
  }
}
