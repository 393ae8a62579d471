/** A first-in-first-out queue. Go embeds a linked list in the `Queue` struct;
    the model keeps it in the field `list` and offers at its back and polls at
    its front. */
module Queue {
  import opened Wrappers
  import LinkedList

  class Queue<T(==)> {
    var list: LinkedList.LinkedList<T>
    ghost var Repr: set<object>

    ghost predicate Valid()
      reads this, Repr
      ensures Valid() ==> this in Repr
    {
      && this in Repr
      && list in Repr
      && list.Repr <= Repr
      && this !in list.Repr
      && list.Valid()
    }

    /** The elements from the front of the queue to its back. */
    ghost function Contents(): seq<T>
      reads this, list
    {
      list.Contents
    }

    constructor ()
      ensures Valid() && fresh(Repr) && Contents() == []
    {
      list := new LinkedList.LinkedList();
      new;
      Repr := {this} + list.Repr;
    }

    method Empty() returns (b: bool)
      requires Valid()
      ensures b <==> Contents() == []
    {
      b := list.Empty();
    }

    method Offer(v: T)
      requires Valid()
      modifies Repr
      ensures Valid() && fresh(Repr - old(Repr))
      ensures Contents() == old(Contents()) + [v]
    {
      list.AddLast(v);
      Repr := Repr + list.Repr;
    }

    /** Removes and returns the front element; an empty queue yields nothing. */
    method Poll() returns (r: Option<T>)
      requires Valid()
      modifies Repr
      ensures Valid() && fresh(Repr - old(Repr))
      ensures old(Contents()) == [] ==> r == None && Contents() == []
      ensures old(Contents()) != [] ==> r == Some(old(Contents())[0]) && Contents() == old(Contents())[1..]
    {
      var empty := list.Empty();
      if empty {
        return None;
      }
      r := list.First();
      var _ := list.RemoveFirst();
    }

    method Peek() returns (r: Option<T>)
      requires Valid()
      ensures r == if Contents() == [] then None else Some(Contents()[0])
    {
      var empty := list.Empty();
      if empty {
        return None;
      }
      r := list.First();
    }

    method Enqueue(v: T)
      requires Valid()
      modifies Repr
      ensures Valid() && fresh(Repr - old(Repr))
      ensures Contents() == old(Contents()) + [v]
    {
      Offer(v);
    }

    method Dequeue() returns (r: Option<T>)
      requires Valid()
      modifies Repr
      ensures Valid() && fresh(Repr - old(Repr))
      ensures old(Contents()) == [] ==> r == None && Contents() == []
      ensures old(Contents()) != [] ==> r == Some(old(Contents())[0]) && Contents() == old(Contents())[1..]
    {
      r := Poll();
    }
  }

  /** Elements leave a fresh queue in the order they were offered, and a
      drained queue polls nothing. */
  method FirstInFirstOut<T(==)>(a: T, b: T, c: T) returns (x: Option<T>, y: Option<T>, z: Option<T>, w: Option<T>)
    ensures x == Some(a) && y == Some(b) && z == Some(c) && w == None
  {
    var q := Offered(a, b, c);
    x := q.Poll();
    y := q.Dequeue();
    z := q.Poll();
    w := q.Poll();
  }

  /** A fresh queue after offering `a`, `b` and `c` in that order. */
  method Offered<T(==)>(a: T, b: T, c: T) returns (q: Queue<T>)
    ensures q.Valid() && fresh(q.Repr) && q.Contents() == [a, b, c]
  {
    q := new Queue();
    q.Offer(a);
    q.Offer(b);
    q.Enqueue(c);
  }
}
