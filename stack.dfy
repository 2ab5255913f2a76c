/**
 * stack-fifo/src/main.rs: a last-in first-out stack over a `Vec`. The top is
 * the end of the sequence field, where `push` and `pop` work.
 */
module Stacks {
  import opened Wrappers

  class Stack<T> {
    var stack: seq<T>

    /** `new()`: an empty stack. */
    constructor ()
      ensures stack == []
      ensures Length() == 0 && IsEmpty()
    {
      stack := [];
    }

    /** `length()`: the number of values on the stack. */
    function Length(): nat
      reads this
    {
      |stack|
    }

    /** `is_empty()`: exactly when `length()` is zero. */
    function IsEmpty(): (empty: bool)
      reads this
      ensures empty <==> Length() == 0
      ensures empty <==> stack == []
    {
      |stack| == 0
    }

    /** `peek()`: the top value, or `None` on an empty stack. */
    function Peek(): (r: Option<T>)
      reads this
      ensures r.None? <==> IsEmpty()
      ensures r.Some? ==> |stack| > 0 && r.value == stack[|stack| - 1]
    {
      if |stack| == 0 then None else Some(stack[|stack| - 1])
    }

    /** `push(value)`: `value` becomes the top and the length grows by one. */
    method Push(value: T)
      modifies this
      ensures stack == old(stack) + [value]
      ensures Length() == old(Length()) + 1
      ensures Peek() == Some(value)
    {
      stack := stack + [value];
    }

    /** `pop()`: takes the top value off, or returns `None` and leaves an empty stack as it is. Its
        result is what `peek()` showed just before. */
    method Pop() returns (r: Option<T>)
      modifies this
      ensures r == old(Peek())
      ensures old(IsEmpty()) ==> stack == []
      ensures !old(IsEmpty()) ==> stack == old(stack)[..|old(stack)| - 1]
      ensures !old(IsEmpty()) ==> Length() == old(Length()) - 1
    {
      if |stack| == 0 {
        r := None;
      } else {
        r := Some(stack[|stack| - 1]);
        stack := stack[..|stack| - 1];
      }
    }
  }

  /** `pop` undoes `push`. */
  method PushThenPop<T>(s: Stack<T>, value: T) returns (r: Option<T>)
    modifies s
    ensures r == Some(value) && s.stack == old(s.stack)
  {
    s.Push(value);
    r := s.Pop();
  }

  /** `main` and `test_stack`: pushing 1, 2 and 3 gives length 3 with 3 on top. Popping then yields
      3, 2, 1 and `None`, and the stack ends empty. */
  method LastInFirstOut() returns (len: nat, top: Option<nat>, p1: Option<nat>, p2: Option<nat>,
                                   p3: Option<nat>, p4: Option<nat>, empty: bool)
    ensures len == 3 && top == Some(3)
    ensures p1 == Some(3) && p2 == Some(2) && p3 == Some(1) && p4 == None
    ensures empty
  {
    var s := new Stack<nat>();
    s.Push(1);
    s.Push(2);
    s.Push(3);
    len := s.Length();
    top := s.Peek();
    p1 := s.Pop();
    p2 := s.Pop();
    p3 := s.Pop();
    p4 := s.Pop();
    empty := s.IsEmpty();
  }
}
