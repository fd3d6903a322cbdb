/** A bounded stack over a caller's array: the free list of the pool. */
module PtrStack {
  import opened Foundations

  class Stack<T> {
    var stack: array<T>
    var maxItemCount: nat
    var stackTop: nat

    ghost predicate Valid()
      reads this
    {
      stackTop <= maxItemCount <= stack.Length
    }

    ghost function Items(): seq<T>
      requires Valid()
      reads this, stack
    {
      stack[..stackTop]
    }

    /** A deinitialised stack. */
    constructor (stack: array<T>)
      ensures Valid() && maxItemCount == 0 && this.stack == stack
    {
      this.stack := stack;
      maxItemCount, stackTop := 0, 0;
    }

    method Init(buffer: array<T>, itemCount: nat) returns (code: ErrorCode)
      requires itemCount <= buffer.Length
      modifies this
      ensures code == if itemCount == 0 then ErrInvalidArg else ErrNone
      ensures code != ErrNone ==> unchanged(this)
      ensures code == ErrNone ==>
                Valid() && Items() == [] && maxItemCount == itemCount && stack == buffer
    {
      if itemCount == 0 { return ErrInvalidArg; }
      stack := buffer;
      maxItemCount := itemCount;
      stackTop := 0;
      return ErrNone;
    }

    method Deinit()
      modifies this
      ensures Valid() && Items() == [] && maxItemCount == 0
    {
      maxItemCount := 0;
      stackTop := 0;
    }

    function RemainingCount(): (n: nat)
      requires Valid()
      reads this, stack
      ensures n + |Items()| == maxItemCount
    {
      maxItemCount - stackTop
    }

    method Push(value: T) returns (code: ErrorCode)
      requires Valid()
      modifies this`stackTop, stack
      ensures Valid()
      ensures code == if |old(Items())| == maxItemCount then ErrNoMem else ErrNone
      ensures Items() == if code == ErrNone then old(Items()) + [value] else old(Items())
    {
      if RemainingCount() == 0 { return ErrNoMem; }
      stack[stackTop] := value;
      stackTop := stackTop + 1;
      return ErrNone;
    }

    method Pop() returns (code: ErrorCode, value: Option<T>)
      requires Valid()
      modifies this`stackTop
      ensures Valid()
      ensures old(Items()) == [] ==> code == ErrEmpty && value == None && Items() == []
      ensures old(Items()) != [] ==>
                code == ErrNone && value.Some? && Items() + [value.value] == old(Items())
    {
      if RemainingCount() == maxItemCount { return ErrEmpty, None; }
      stackTop := stackTop - 1;
      return ErrNone, Some(stack[stackTop]);
    }
  }
}
