/** `Stack`: a last-in first-out view of a linear collection whose top is its
    last element. The constructor passes no delimiter, so every push adds one
    submobject, and every successful pop takes two away. */
module Stacks {
  import opened Wrappers
  import opened LinearCollections

  datatype Stack = Stack(base: LinearCollection)

  function Items(s: Stack): seq<int>
  {
    s.base.data
  }

  /** The length of the stack's submobject list. */
  function Drawn(s: Stack): nat
  {
    s.base.submobjectCount
  }

  /** The constructor passes an empty tuple of initial values and no delimiter. */
  function New(): (s: Stack)
    ensures Items(s) == [] && Drawn(s) == 0 && !s.base.delimited
  {
    Stack(FromValues([], false))
  }

  /** `push(value)`: appends `value` on top. */
  function Push(s: Stack, value: int): (r: Stack)
    ensures Items(r) == Items(s) + [value]
    ensures r.base.delimited == s.base.delimited
    ensures Drawn(r) == Drawn(s) + PartsPerElement(s.base)
  {
    Stack(Append(s.base, value))
  }

  /** `peek()`: the element at subscript `-1`. Reading it leaves the stack as it
      was; on an empty stack the subscript raises IndexError. */
  function Peek(s: Stack): (r: Result<int>)
    ensures r.Success? <==> |Items(s)| > 0
    ensures r.Success? ==> r.value == Items(s)[|Items(s)| - 1]
  {
    GetItem(s.base, -1)
  }

  /** `pop()`: the collection's `pop(-1)`, which returns nothing. It raises
      IndexError on an empty stack, and also when the submobject list has fewer
      than three entries, since subscript `-2` is popped from it twice. */
  function Pop(s: Stack): (r: Result<Stack>)
    ensures r.Success? <==> |Items(s)| > 0 && Drawn(s) >= 3
    ensures r.Success? ==>
      && Items(r.value) == Items(s)[..|Items(s)| - 1]
      && r.value.base.delimited == s.base.delimited
      && Drawn(r.value) == Drawn(s) - 2
  {
    match LinearCollections.Pop(s.base, -1)
    case Failure(e) => Failure(e)
    case Success(c) =>
      assert c.data == s.base.data[..|s.base.data| - 1];
      Success(Stack(c))
  }

  /** `push` applied to each of `values` in turn. */
  function PushAll(s: Stack, values: seq<int>): (r: Stack)
    ensures Items(r) == Items(s) + values
    ensures r.base.delimited == s.base.delimited
    ensures Drawn(r) == Drawn(s) + |values| * PartsPerElement(s.base)
    decreases |values|
  {
    if |values| == 0 then s
    else
      var r := PushAll(Push(s, values[0]), values[1..]);
      assert Items(s) + [values[0]] + values[1..] == Items(s) + values;
      r
  }

  /** Peeking right after a push reads the pushed value. Popping right after a
      push gives back the values from before the push, provided the drawing then
      holds three submobjects; the drawing itself does not return to its old size. */
  lemma PushThenPopPeek(s: Stack, value: int)
    ensures Peek(Push(s, value)) == Success(value)
    ensures Pop(Push(s, value)).Success? <==> Drawn(s) + PartsPerElement(s.base) >= 3
    ensures Pop(Push(s, value)).Success? ==>
      && Items(Pop(Push(s, value)).value) == Items(s)
      && Drawn(Pop(Push(s, value)).value) == Drawn(s) + PartsPerElement(s.base) - 2
  {
    assert (Items(s) + [value])[..|Items(s)|] == Items(s);
  }

  /** A new stack can be neither peeked nor popped. */
  lemma NewStackIsEmpty()
    ensures Peek(New()) == Failure(IndexError)
    ensures Pop(New()) == Failure(IndexError)
  {
  }

  /** On a stack that has only been pushed to, `pop()` succeeds exactly when it
      holds at least three elements. */
  lemma PopNeedsThreePushes(values: seq<int>)
    ensures Pop(PushAll(New(), values)).Success? <==> |values| >= 3
  {
  }

  /** A pop takes two submobjects for one element, so after pushing 6, 12 and 7,
      popping once and pushing 5, the stack holds three elements yet `pop()`
      raises IndexError. */
  lemma PopAfterPopAndPushFails()
    ensures Pop(PushAll(New(), [6, 12, 7])).Success?
    ensures var s := Push(Pop(PushAll(New(), [6, 12, 7])).value, 5);
      Items(s) == [6, 12, 5] && Pop(s) == Failure(IndexError)
  {
  }

  /** `__eq__` accepts only a right-hand side whose class is exactly
      `LinearCollection`, and two stacks share a class, so Python calls the left
      one's method: a stack is never equal to a stack, itself included. */
  lemma StackNeverEqualsStack(s: Stack, t: Stack)
    ensures !EqOperator(LinearCollectionSubclass, s.base, Operand(LinearCollectionSubclass, Items(t)))
    ensures NeOperator(LinearCollectionSubclass, s.base, Operand(LinearCollectionSubclass, Items(s)))
  {
  }

  /** A plain collection and a stack with the same values are equal under `==`
      in either order, because the stack's method is the one called and it sees
      an exact `LinearCollection`; the collection's own method would say no. */
  lemma CollectionEqualsStackWithSameValues(c: LinearCollection, s: Stack)
    requires c.data == Items(s)
    ensures EqOperator(ExactlyLinearCollection, c, Operand(LinearCollectionSubclass, Items(s)))
    ensures EqOperator(LinearCollectionSubclass, s.base, Operand(ExactlyLinearCollection, c.data))
    ensures !Eq(c, Operand(LinearCollectionSubclass, Items(s)))
  {
  }
}
