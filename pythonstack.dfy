/*
 * python/Stack.py: the stack the Python decompressor pushes a string's
 * bytes onto while it walks a codeword's chain. The list and its stack
 * pointer are fields that push, pop and reset_stack update in place.
 */
module PyStack {

  class Stack {
    var stackPointer: int
    /** The Python list, its top last. */
    var stack: seq<int>

    /** The stack pointer counts the list's elements. */
    ghost predicate Valid()
      reads this
    {
      stackPointer == |stack|
    }

    /** Stack(): an empty stack. */
    constructor ()
      ensures Valid() && stack == []
    {
      stackPointer := 0;
      stack := [];
    }

    /** reset_stack: back to empty. */
    method ResetStack()
      modifies this
      ensures Valid() && stack == []
    {
      stackPointer := 0;
      stack := [];
    }

    /** stack_size: the number of values on the stack. */
    function StackSize(): (n: int)
      reads this
      ensures Valid() ==> n == |stack|
    {
      stackPointer
    }

    /** stack_empty: exactly when nothing is on the stack. */
    predicate StackEmpty()
      reads this
      ensures Valid() ==> (StackEmpty() <==> stack == [])
    {
      stackPointer == 0
    }

    /** push: the value goes on top and the size grows by one. */
    method Push(byteValue: int)
      requires Valid()
      modifies this
      ensures Valid() && stack == old(stack) + [byteValue]
      ensures StackSize() == old(StackSize()) + 1
    {
      stack := stack + [byteValue];
      stackPointer := stackPointer + 1;
    }

    /**
     * pop: the value pushed last comes off and the size shrinks by one
     * (popping an empty Python list raises, so the stack must hold a value).
     */
    method Pop() returns (v: int)
      requires Valid() && stack != []
      modifies this
      ensures Valid() && v == old(stack)[|old(stack)| - 1] && stack == old(stack)[..|old(stack)| - 1]
      ensures StackSize() == old(StackSize()) - 1
    {
      stackPointer := stackPointer - 1;
      v := stack[|stack| - 1];
      stack := stack[..|stack| - 1];
    }
  }

  /**
   * The module's mini test: push 19 and 64, see two values and a non-empty
   * stack, pop 64 and then 19, and end with an empty stack.
   */
  method MiniTest() returns (size1: int, empty1: bool, pop1: int, pop2: int, size2: int, empty2: bool)
    ensures size1 == 2 && !empty1
    ensures pop1 == 64 && pop2 == 19
    ensures size2 == 0 && empty2
  {
    var mystack := new Stack();
    mystack.Push(19);
    mystack.Push(64);
    size1 := mystack.StackSize();
    empty1 := mystack.StackEmpty();
    pop1 := mystack.Pop();
    pop2 := mystack.Pop();
    size2 := mystack.StackSize();
    empty2 := mystack.StackEmpty();
  }
}
