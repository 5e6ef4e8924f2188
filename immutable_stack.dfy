/** The persistent cons list on which the queue is built (class ImmutableStack). */
module ImmutableStack {
  import opened Outcomes

  /** `Empty` is the node whose head and tail fields are both null; every other
      node holds an element and shares the stack below it. */
  datatype Stack<T> = Empty | Cons(head: T, tail: Stack<T>)

  /** The elements of a stack, top first. */
  function ToSeq<T>(s: Stack<T>): seq<T>
  {
    match s
    case Empty => []
    case Cons(h, t) => [h] + ToSeq(t)
  }

  /** The reverse of a sequence, characterised element by element. */
  function SeqReverse<T>(s: seq<T>): (r: seq<T>)
    ensures |r| == |s|
    ensures forall i :: 0 <= i < |s| ==> r[i] == s[|s| - 1 - i]
  {
    if s == [] then [] else SeqReverse(s[1..]) + [s[0]]
  }

  /** Reversing a sequence with one more element at its end puts that element first. */
  lemma SeqReverseSnoc<T>(s: seq<T>, x: T)
    ensures SeqReverse(s + [x]) == [x] + SeqReverse(s)
  {
  }

  /** Two stacks with the same elements are the same stack. */
  lemma {:induction false} ToSeqInjective<T>(a: Stack<T>, b: Stack<T>)
    requires ToSeq(a) == ToSeq(b)
    ensures a == b
  {
    match a
    case Empty =>
    case Cons(h, t) =>
      assert ToSeq(b)[0] == h && ToSeq(b)[1..] == ToSeq(t);
      ToSeqInjective(t, b.tail);
  }

  /** ImmutableStack.isEmpty: the head and the tail are both null. */
  function IsEmpty<T>(s: Stack<T>): (r: bool)
    ensures r <==> ToSeq(s) == []
  {
    s.Empty?
  }

  /** ImmutableStack.head, as intended: the stored head field, which is null
      (`None`) on the empty stack. */
  function Top<T>(s: Stack<T>): (r: Option<T>)
    ensures r.None? <==> ToSeq(s) == []
    ensures r.Some? ==> r.value == ToSeq(s)[0]
  {
    if s.Empty? then None else Some(s.head)
  }

  /** ImmutableStack.push: a null element is refused; any other goes on top,
      and the receiver becomes the new node's tail. */
  function Push<T>(s: Stack<T>, t: Option<T>): (r: Result<Stack<T>>)
    ensures t.None? <==> r.Failure?
    ensures r.Failure? ==> r.error == IllegalArgument
    ensures r.Success? ==> ToSeq(r.value) == [t.value] + ToSeq(s)
    ensures r.Success? ==> r.value.Cons? && r.value.tail == s
  {
    if t.None? then Failure(IllegalArgument) else Success(Cons(t.value, s))
  }

  /** ImmutableStack.pop: a copy of the tail node. The source dereferences the
      tail without a check, so the stack must not be empty. */
  function Pop<T>(s: Stack<T>): (r: Stack<T>)
    requires !IsEmpty(s)
    ensures ToSeq(r) == ToSeq(s)[1..]
  {
    match s.tail
    case Empty => Empty
    case Cons(h, t) => Cons(h, t)
  }

  /** The loop of ImmutableStack.reverse as a function: move every element of
      `s`, top first, onto `acc`. */
  function ReverseOnto<T>(s: Stack<T>, acc: Stack<T>): (r: Stack<T>)
    ensures ToSeq(r) == SeqReverse(ToSeq(s)) + ToSeq(acc)
  {
    match s
    case Empty => acc
    case Cons(h, t) =>
      assert ([h] + ToSeq(t))[1..] == ToSeq(t);
      ReverseOnto(t, Cons(h, acc))
  }

  /** The stack ImmutableStack.reverse returns. */
  function Reversed<T>(s: Stack<T>): (r: Stack<T>)
    ensures ToSeq(r) == SeqReverse(ToSeq(s))
  {
    ReverseOnto(s, Empty)
  }

  /** ImmutableStack.reverse: pushes the elements of `s`, top first, onto a
      fresh empty stack; `s` itself is left as it was. */
  method Reverse<T>(s: Stack<T>) returns (r: Stack<T>)
    ensures ToSeq(r) == SeqReverse(ToSeq(s))
    ensures r == Reversed(s)
  {
    var reversedStack: Stack<T> := Empty;
    var tempStack := s;
    ghost var consumed: seq<T> := [];
    while !IsEmpty(tempStack)
      invariant ToSeq(reversedStack) == SeqReverse(consumed)
      invariant consumed + ToSeq(tempStack) == ToSeq(s)
      decreases tempStack
    {
      var pushed := Push(reversedStack, Some(tempStack.head));
      SeqReverseSnoc(consumed, tempStack.head);
      assert ToSeq(tempStack) == [tempStack.head] + ToSeq(tempStack.tail);
      consumed := consumed + [tempStack.head];
      reversedStack := pushed.value;
      tempStack := tempStack.tail;
    }
    r := reversedStack;
    assert consumed == ToSeq(s);
    ToSeqInjective(r, Reversed(s));
  }
}
