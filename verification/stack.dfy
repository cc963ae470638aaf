/** `stack`: a last-in first-out adapter whose only state is the underlying
    container, a `vector` by default. Every operation delegates to it; the top
    of the stack is the back of the vector. */
module Stacks {
  import opened Algorithms
  import opened Vectors

  class Stack<T(0)> {
    var container: Vector<T>

    ghost predicate Valid()
      reads this, container, container.buf
    {
      container.Valid()
    }

    /** The elements from the bottom to the top. */
    ghost function Elements(): seq<T>
      reads this, container, container.buf
      requires Valid()
    {
      container.Elements()
    }

    /** `stack(cont)`: the container is a copy of cont. */
    constructor (cont: Vector<T>)
      requires cont.Valid()
      ensures Valid() && fresh(container) && fresh(container.buf)
      ensures Elements() == cont.Elements()
    {
      container := new Vector.Copy(cont);
    }

    /** `operator=`: the container is assigned from the other's. */
    method Assign(other: Stack<T>)
      requires Valid() && other.Valid()
      modifies container, container.buf
      ensures Valid() && (container.buf == old(container.buf) || fresh(container.buf))
      ensures Elements() == old(other.Elements())
    {
      container.CopyAssign(other.container);
    }

    /** `top()` of a non-empty stack: the most recently pushed element still
        present. */
    method Top() returns (v: T)
      requires Valid() && |Elements()| > 0
      ensures v == Elements()[|Elements()| - 1]
    {
      v := container.Back();
    }

    /** `empty()`. */
    function Empty(): (b: bool)
      reads this, container, container.buf
      requires Valid()
      ensures b <==> Size() == 0
      ensures b <==> Elements() == []
    {
      container.Empty()
    }

    /** `size()`. */
    function Size(): (n: nat)
      reads this, container, container.buf
      requires Valid()
      ensures n == |Elements()|
    {
      container.Size()
    }

    /** `push(value)`: `push_back` on the container; `value` becomes the top.
        The container's `length_error` passes through. */
    method Push(value: T) returns (r: Outcome)
      requires Valid()
      modifies container, container.buf
      ensures Valid() && (container.buf == old(container.buf) || fresh(container.buf))
      ensures r == if |old(Elements())| + 1 > container.maxSize then Fail(LengthError) else Ok
      ensures r.Ok? ==> Elements() == old(Elements()) + [value]
      ensures r.Ok? ==> Size() == old(Size()) + 1 && Elements()[Size() - 1] == value
      ensures r.Fail? ==> Elements() == old(Elements())
    {
      r := container.PushBack(value);
    }

    /** `pop()`: `pop_back` on the container, which drops the top of a
        non-empty stack (and throws `length_error` on an empty one). */
    method Pop() returns (r: Outcome)
      requires Valid()
      modifies container, container.buf
      ensures Valid() && (container.buf == old(container.buf) || fresh(container.buf))
      ensures r.Fail? <==> old(Size()) == 0 || old(Size()) - 1 > container.maxSize
      ensures old(Size()) == 0 ==> r == Fail(LengthError) && Elements() == old(Elements())
      ensures old(Size()) > 0 ==> Elements() == old(Elements())[..old(Size()) - 1]
      ensures old(Size()) > 0 ==> Size() == old(Size()) - 1
    {
      r := container.PopBack();
    }

    /** A push that succeeds, followed by a pop, restores the contents. */
    method PushThenPop(value: T) returns (r: Outcome)
      requires Valid()
      modifies container, container.buf
      ensures Valid()
      ensures r.Ok? ==> Elements() == old(Elements())
      ensures r == if |old(Elements())| + 1 > container.maxSize then Fail(LengthError) else Ok
    {
      ghost var s := Elements();
      r := Push(value);
      if r.Ok? {
        var _ := Pop();
        assert Elements() == (s + [value])[..|s|] == s;
      }
    }
  }

  /** `operator==`: `==` on the containers. */
  method StackEq<T(0, ==)>(lhs: Stack<T>, rhs: Stack<T>) returns (r: bool)
    requires lhs.Valid() && rhs.Valid()
    ensures r <==> lhs.Elements() == rhs.Elements()
  {
    r := VectorEq(lhs.container, rhs.container);
  }

  /** `operator!=`: `!=` on the containers. */
  method StackNe<T(0, ==)>(lhs: Stack<T>, rhs: Stack<T>) returns (r: bool)
    requires lhs.Valid() && rhs.Valid()
    ensures r <==> lhs.Elements() != rhs.Elements()
  {
    r := VectorNe(lhs.container, rhs.container);
  }

  /** `operator<`: `<` on the containers, lexicographic from the bottom. */
  method StackLt(lhs: Stack<int>, rhs: Stack<int>) returns (r: bool)
    requires lhs.Valid() && rhs.Valid()
    ensures r == LexLess(lhs.Elements(), rhs.Elements())
  {
    r := VectorLt(lhs.container, rhs.container);
  }

  /** `operator<=`: `<=` on the containers. */
  method StackLe(lhs: Stack<int>, rhs: Stack<int>) returns (r: bool)
    requires lhs.Valid() && rhs.Valid()
    ensures r <==> LexLess(lhs.Elements(), rhs.Elements()) || lhs.Elements() == rhs.Elements()
  {
    r := VectorLe(lhs.container, rhs.container);
  }

  /** `operator>`: `>` on the containers. */
  method StackGt(lhs: Stack<int>, rhs: Stack<int>) returns (r: bool)
    requires lhs.Valid() && rhs.Valid()
    ensures r <==> LexLess(rhs.Elements(), lhs.Elements())
  {
    r := VectorGt(lhs.container, rhs.container);
    LexTrichotomy(lhs.Elements(), rhs.Elements());
  }

  /** `operator>=`: `>=` on the containers. */
  method StackGe(lhs: Stack<int>, rhs: Stack<int>) returns (r: bool)
    requires lhs.Valid() && rhs.Valid()
    ensures r <==> !LexLess(lhs.Elements(), rhs.Elements())
  {
    r := VectorGe(lhs.container, rhs.container);
    LexTrichotomy(lhs.Elements(), rhs.Elements());
  }
}
