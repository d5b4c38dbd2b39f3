/** LIFO stack stored in a growable list (class ArrayStack of main.py). */
module ArrayStacks {
  import opened Wrappers

  /** The message of the error raised by top and pop on an empty stack. */
  const StackEmpty: Empty := Empty("Stack is empty")

  class ArrayStack<T> {
    /** The list of elements, oldest at index 0, top of the stack last. */
    var data: seq<T>

    /** A new stack holds no elements. */
    constructor ()
      ensures data == []
    {
      data := [];
    }

    /** __len__: the number of elements on the stack. */
    function Len(): (n: nat)
      reads this
      ensures n == |data|
    {
      |data|
    }

    /** is_empty: true exactly when the stack holds no element. */
    function IsEmpty(): (b: bool)
      reads this
      ensures b <==> data == []
      ensures b <==> Len() == 0
    {
      |data| == 0
    }

    /** push: e becomes the new top; nothing below it changes. */
    method Push(e: T)
      modifies this
      ensures data == old(data) + [e]
    {
      data := data + [e];
    }

    /** top: the most recently pushed element, without removing it; Empty
        on an empty stack. */
    function Top(): (r: Result<T, Empty>)
      reads this
      ensures r.Failure? <==> data == []
      ensures r.Failure? ==> r.error == StackEmpty
      ensures r.Success? ==> r.value == data[|data| - 1]
    {
      if IsEmpty() then Failure(StackEmpty) else Success(data[|data| - 1])
    }

    /** pop: removes and returns the element top would return; on an empty
        stack fails with Empty and changes nothing. */
    method Pop() returns (r: Result<T, Empty>)
      modifies this
      ensures r == old(Top())
      ensures r.Failure? ==> data == old(data)
      ensures r.Success? ==> data == old(data)[..|old(data)| - 1]
      ensures r.Success? ==> old(data) == data + [r.value]
    {
      if IsEmpty() {
        return Failure(StackEmpty);
      }
      var last := data[|data| - 1];
      data := data[..|data| - 1];
      r := Success(last);
    }
  }
}
