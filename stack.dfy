/** A last-in-first-out stack. Go embeds a linked list in the `Stack` struct;
    the model keeps it in the field `list` and pushes and pops at its front. */
module Stack {
  import opened Wrappers
  import LinkedList

  class Stack<T(==)> {
    var list: LinkedList.LinkedList<T>
    ghost var Repr: set<object>

    ghost predicate Valid()
      reads this, Repr
      ensures Valid() ==> this in Repr
    {
      && this in Repr
      && list in Repr
      && list.Repr <= Repr
      && this !in list.Repr
      && list.Valid()
    }

    /** The elements from the top of the stack down. */
    ghost function Contents(): seq<T>
      reads this, list
    {
      list.Contents
    }

    constructor ()
      ensures Valid() && fresh(Repr) && Contents() == []
    {
      list := new LinkedList.LinkedList();
      new;
      Repr := {this} + list.Repr;
    }

    method Empty() returns (b: bool)
      requires Valid()
      ensures b <==> Contents() == []
    {
      b := list.Empty();
    }

    method Push(v: T)
      requires Valid()
      modifies Repr
      ensures Valid() && fresh(Repr - old(Repr))
      ensures Contents() == [v] + old(Contents())
    {
      list.AddFirst(v);
      Repr := Repr + list.Repr;
    }

    /** Removes and returns the top element; an empty stack yields nothing. */
    method Pop() returns (r: Option<T>)
      requires Valid()
      modifies Repr
      ensures Valid() && fresh(Repr - old(Repr))
      ensures old(Contents()) == [] ==> r == None && Contents() == []
      ensures old(Contents()) != [] ==> r == Some(old(Contents())[0]) && Contents() == old(Contents())[1..]
    {
      var empty := list.Empty();
      if empty {
        return None;
      }
      r := list.First();
      var _ := list.RemoveFirst();
    }

    method Peek() returns (r: Option<T>)
      requires Valid()
      ensures r == if Contents() == [] then None else Some(Contents()[0])
    {
      var empty := list.Empty();
      if empty {
        return None;
      }
      r := list.First();
    }
  }

  /** Elements leave a fresh stack in the reverse of the order they were pushed,
      and a drained stack pops nothing. */
  method LastInFirstOut<T(==)>(a: T, b: T, c: T) returns (x: Option<T>, y: Option<T>, z: Option<T>, w: Option<T>)
    ensures x == Some(c) && y == Some(b) && z == Some(a) && w == None
  {
    var s := Pushed(a, b, c);
    x := s.Pop();
    y := s.Pop();
    z := s.Pop();
    w := s.Pop();
  }

  /** A fresh stack after pushing `a`, `b` and `c` in that order. */
  method Pushed<T(==)>(a: T, b: T, c: T) returns (s: Stack<T>)
    ensures s.Valid() && fresh(s.Repr) && s.Contents() == [c, b, a]
  {
    s := new Stack();
    s.Push(a);
    s.Push(b);
    s.Push(c);
  }
}
