/** The persistent FIFO queue built from two immutable stacks (class ImmutableQueue). */
module ImmutableQueue {
  import opened Outcomes
  import opened ImmutableStack

  /** `input` holds the newest elements, most recent on top; `output` holds the
      oldest ones, oldest on top. Both are shared, never copied. */
  datatype Queue<T> = Queue(input: Stack<T>, output: Stack<T>)

  /** What the queue holds, oldest first: the output stack read top to bottom,
      then the input stack read bottom to top. */
  function Contents<T>(q: Queue<T>): seq<T>
  {
    ToSeq(q.output) + SeqReverse(ToSeq(q.input))
  }

  /** The public constructor: two fresh empty stacks. */
  function EmptyQueue<T>(): (q: Queue<T>)
    ensures Contents(q) == []
  {
    Queue(Empty, Empty)
  }

  /** ImmutableQueue.isEmpty: both stacks are empty, which is exactly when the
      queue holds nothing. */
  function IsEmpty<T>(q: Queue<T>): (r: bool)
    ensures r <==> Contents(q) == []
  {
    ImmutableStack.IsEmpty(q.input) && ImmutableStack.IsEmpty(q.output)
  }

  /** ImmutableQueue.enQueue: a null element is refused; any other is pushed on
      the input stack, the output stack is reused as it is, and the element
      joins the back of the queue. */
  function EnQueue<T>(q: Queue<T>, t: Option<T>): (r: Result<Queue<T>>)
    ensures t.None? <==> r.Failure?
    ensures r.Failure? ==> r.error == IllegalArgument
    ensures r.Success? ==> Contents(r.value) == Contents(q) + [t.value]
    ensures r.Success? ==> r.value.output == q.output
  {
    if t.None? then Failure(IllegalArgument)
    else
      var pushed := Push(q.input, t);
      assert ToSeq(pushed.value)[1..] == ToSeq(q.input);
      Success(Queue(pushed.value, q.output))
  }

  /** ImmutableQueue.deQueue: fails on an empty queue; otherwise drops the
      oldest element. While the output stack has elements the input stack is
      kept as it is; once it has run dry, the reversed input stack without its
      top becomes the output and the input starts again empty. */
  function DeQueue<T>(q: Queue<T>): (r: Result<Queue<T>>)
    ensures r.Failure? <==> Contents(q) == []
    ensures r.Failure? ==> r.error == NoSuchElement
    ensures r.Success? ==> Contents(r.value) == Contents(q)[1..]
    ensures r.Success? && !ImmutableStack.IsEmpty(q.output) ==> r.value.input == q.input
    ensures r.Success? && ImmutableStack.IsEmpty(q.output) ==> ImmutableStack.IsEmpty(r.value.input)
    ensures r.Success? && ImmutableStack.IsEmpty(q.output) ==>
      Reversed(q.input).Cons? && r.value.output == Reversed(q.input).tail
  {
    if IsEmpty(q) then Failure(NoSuchElement)
    else if !ImmutableStack.IsEmpty(q.output) then
      Success(Queue(q.input, q.output.tail))
    else
      var reversed := Reversed(q.input);
      assert ToSeq(reversed) == [reversed.head] + ToSeq(reversed.tail);
      Success(Queue(Empty, reversed.tail))
  }

  /** ImmutableQueue.head: fails on an empty queue; otherwise the oldest
      element. With an empty output stack it asks a new queue, whose output is
      the reversed input stack, for its head. */
  function Head<T>(q: Queue<T>): (r: Result<T>)
    ensures r.Failure? <==> Contents(q) == []
    ensures r.Failure? ==> r.error == NoSuchElement
    ensures r.Success? ==> r.value == Contents(q)[0]
    decreases if ImmutableStack.IsEmpty(q.output) then 1 else 0
  {
    if IsEmpty(q) then Failure(NoSuchElement)
    else if ImmutableStack.IsEmpty(q.output) then
      Head(Queue(Empty, Reversed(q.input)))
    else
      Success(q.output.head)
  }
}
