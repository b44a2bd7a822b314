/** The last-in, first-out `Stack` of `stack.py`, as an immutable value whose
    top is the end of its item list (the Python list it wraps). */
module Stacks {
  import opened Basics

  datatype Stack<T> = Stack(items: seq<T>)

  /** `Stack()`: a stack with nothing on it. */
  function New<T>(): (s: Stack<T>)
    ensures IsEmpty(s)
  {
    Stack([])
  }

  /** `is_empty`. */
  predicate IsEmpty<T>(s: Stack<T>)
  {
    |s.items| == 0
  }

  /** `add(obj)`: put `x` on top. */
  function Add<T>(s: Stack<T>, x: T): (r: Stack<T>)
    ensures !IsEmpty(r)
    ensures |r.items| == |s.items| + 1
  {
    Stack(s.items + [x])
  }

  /** `remove()`: the top element and the stack below it. The source assumes
      the stack is not empty (`list.pop` raises otherwise). */
  function Remove<T>(s: Stack<T>): (r: (T, Stack<T>))
    requires !IsEmpty(s)
    ensures |r.1.items| == |s.items| - 1
  {
    (s.items[|s.items| - 1], Stack(s.items[..|s.items| - 1]))
  }

  /** `__eq__`: equal to another stack with the same contents, never equal to
      an object of another type. */
  predicate Equals<T(==)>(s: Stack<T>, other: Operand<Stack<T>>)
  {
    other.Instance? && s.items == other.obj.items
  }

  /** Removing right after adding gives back what was added and the stack as
      it was before. */
  lemma RemoveAfterAdd<T>(s: Stack<T>, x: T)
    ensures Remove(Add(s, x)) == (x, s)
  {
    assert (s.items + [x])[..|s.items|] == s.items;
  }

  /** Adding back what was removed restores the stack. */
  lemma {:induction false} AddAfterRemove<T>(s: Stack<T>)
    requires !IsEmpty(s)
    ensures Add(Remove(s).1, Remove(s).0) == s
  {
    var n := |s.items|;
    assert s.items[..n - 1] + [s.items[n - 1]] == s.items;
  }

  /** The doctest of `remove`: after adding 5 then 7, removal yields 7 and then 5. */
  lemma LastInFirstOut()
    ensures Remove(Add(Add(New(), 5), 7)).0 == 7
    ensures Remove(Remove(Add(Add(New(), 5), 7)).1).0 == 5
    ensures IsEmpty(Remove(Remove(Add(Add(New(), 5), 7)).1).1)
  {
    RemoveAfterAdd(Add(New(), 5), 7);
    RemoveAfterAdd(New(), 5);
  }

  /** Equality holds exactly between stacks with equal contents. */
  lemma EqualsIffSameItems<T>(s: Stack<T>, t: Stack<T>)
    ensures Equals(s, Instance(t)) <==> s == t
    ensures !Equals(s, OtherType)
  {
  }
}
