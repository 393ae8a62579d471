/** A two-way, non-circular linked list: a chain of heap nodes with `prev` and
    `next` links, plus `first`, `last` and a `size` count. The ghost `chain` lists
    the nodes from first to last and `Contents` their values; `Valid()` ties the
    links to that sequence. */
module LinkedList {
  import opened Wrappers

  /** Position of the first occurrence of `v` in `s`, or -1 when `v` does not occur. */
  function IndexOf<T(==)>(s: seq<T>, v: T): (k: int)
    ensures -1 <= k < |s|
    ensures k == -1 <==> v !in s
    ensures 0 <= k ==> s[k] == v && v !in s[..k]
  {
    if s == [] then -1
    else if s[0] == v then 0
    else
      var k := IndexOf(s[1..], v);
      assert s == [s[0]] + s[1..];
      if k == -1 then -1
      else
        assert s[..k + 1] == [s[0]] + s[1..][..k];
        k + 1
  }

  /** The first occurrence is the only position before which `v` does not occur. */
  lemma {:induction false} IndexOfUnique<T>(s: seq<T>, v: T, i: int)
    requires 0 <= i < |s| && s[i] == v && v !in s[..i]
    ensures IndexOf(s, v) == i
  {
    var k := IndexOf(s, v);
    assert forall j :: 0 <= j < i ==> s[..i][j] == s[j];
    assert 0 <= k ==> forall j :: 0 <= j < k ==> s[..k][j] == s[j];
  }

  class Node<T> {
    var value: T
    var next: Node?<T>
    var prev: Node?<T>

    constructor (value: T, next: Node?<T>, prev: Node?<T>)
      ensures this.value == value && this.next == next && this.prev == prev
    {
      this.value, this.next, this.prev := value, next, prev;
    }
  }

  class LinkedList<T(==)> {
    var size: int
    var first: Node?<T>
    var last: Node?<T>

    ghost var chain: seq<Node<T>>
    ghost var Contents: seq<T>
    ghost var Repr: set<object>

    /** The links form exactly the chain: `first.prev` and `last.next` are null,
        `prev`/`next` agree, the nodes are distinct and `size` is the chain length. */
    ghost predicate Valid()
      reads this, Repr
      ensures Valid() ==> this in Repr
    {
      && this in Repr
      && (forall i :: 0 <= i < |chain| ==> chain[i] in Repr)
      && size == |chain| == |Contents|
      && (forall i, j :: 0 <= i < j < |chain| ==> chain[i] != chain[j])
      && (forall i :: 0 <= i < |chain| ==> chain[i].value == Contents[i])
      && (forall i :: 0 <= i < |chain| - 1 ==> chain[i].next == chain[i + 1])
      && (forall i :: 0 < i < |chain| ==> chain[i].prev == chain[i - 1])
      && (if chain == [] then first == null && last == null
          else first == chain[0] && first.prev == null
               && last == chain[|chain| - 1] && last.next == null)
    }

    constructor ()
      ensures Valid() && fresh(Repr) && Contents == []
    {
      size, first, last := 0, null, null;
      chain, Contents := [], [];
      Repr := {this};
    }

    method Size() returns (n: int)
      requires Valid()
      ensures n == |Contents|
    {
      n := size;
    }

    method Empty() returns (b: bool)
      requires Valid()
      ensures b <==> Contents == []
    {
      b := size == 0;
    }

    method AddFirst(v: T)
      requires Valid()
      modifies Repr
      ensures Valid() && fresh(Repr - old(Repr))
      ensures Contents == [v] + old(Contents)
    {
      var n := new Node(v, null, null);
      if size == 0 {
        last := n;
      } else {
        n.next := first;
        first.prev := n;
      }
      first := n;
      size := size + 1;
      chain, Contents := [n] + chain, [v] + Contents;
      Repr := Repr + {n};
    }

    method AddLast(v: T)
      requires Valid()
      modifies Repr
      ensures Valid() && fresh(Repr - old(Repr))
      ensures Contents == old(Contents) + [v]
    {
      var n := new Node(v, null, last);
      if size == 0 {
        first := n;
      } else {
        last.next := n;
      }
      last := n;
      size := size + 1;
      chain, Contents := chain + [n], Contents + [v];
      Repr := Repr + {n};
    }

    method Contains(v: T) returns (b: bool)
      requires Valid()
      ensures b <==> v in Contents
    {
      var n, _ := FastGet(v);
      b := n != null;
    }

    /** Walks the chain from the front, as the Go code does over `iter()`. */
    method Index(v: T) returns (k: int)
      requires Valid()
      ensures k == IndexOf(Contents, v)
    {
      var i := 0;
      var n := first;
      while n != null
        invariant 0 <= i <= |chain|
        invariant n == if i < |chain| then chain[i] else null
        invariant v !in Contents[..i]
        decreases |chain| - i
      {
        if n.value == v {
          IndexOfUnique(Contents, v, i);
          return i;
        }
        assert Contents[..i + 1] == Contents[..i] + [Contents[i]];
        i := i + 1;
        n := n.next;
      }
      assert Contents[..i] == Contents;
      return -1;
    }

    /** Go returns nil for an index past the end; a negative index on a non-empty
        list makes `getNode` walk off the chain, so it is excluded. */
    method Get(i: int) returns (r: Option<T>)
      requires Valid()
      requires 0 <= i || size == 0
      ensures 0 <= i < |Contents| ==> r == Some(Contents[i])
      ensures !(0 <= i < |Contents|) ==> r == None
    {
      var n, err := GetNode(i);
      if err.Fail? {
        return None;
      }
      r := Some(n.value);
    }

    method Set(i: int, v: T) returns (err: Outcome)
      requires Valid()
      requires 0 <= i || size == 0
      modifies Repr
      ensures Valid() && Repr == old(Repr)
      ensures 0 <= i < old(|Contents|) ==> err == Pass && Contents == old(Contents)[i := v]
      ensures !(0 <= i < old(|Contents|)) ==> err == Fail(IndexOutOfBound) && Contents == old(Contents)
    {
      var n;
      n, err := GetNode(i);
      if err == Pass {
        n.value := v;
        Contents := Contents[i := v];
      }
    }

    method First() returns (r: Option<T>)
      requires Valid()
      ensures r == if Contents == [] then None else Some(Contents[0])
    {
      if size == 0 {
        return None;
      }
      r := Some(first.value);
    }

    method Last() returns (r: Option<T>)
      requires Valid()
      ensures r == if Contents == [] then None else Some(Contents[|Contents| - 1])
    {
      if size == 0 {
        return None;
      }
      r := Some(last.value);
    }

    method RemoveFirst() returns (err: Outcome)
      requires Valid()
      modifies Repr
      ensures Valid() && Repr == old(Repr)
      ensures old(Contents) == [] ==> err == Fail(ListEmpty) && Contents == []
      ensures old(Contents) != [] ==> err == Pass && Contents == old(Contents)[1..]
    {
      if size == 0 {
        return Fail(ListEmpty);
      }
      RemoveNode(first, 0);
      return Pass;
    }

    method RemoveLast() returns (err: Outcome)
      requires Valid()
      modifies Repr
      ensures Valid() && Repr == old(Repr)
      ensures old(Contents) == [] ==> err == Fail(ListEmpty) && Contents == []
      ensures old(Contents) != [] ==> err == Pass && Contents == old(Contents)[..|old(Contents)| - 1]
    {
      if size == 0 {
        return Fail(ListEmpty);
      }
      RemoveNode(last, size - 1);
      return Pass;
    }

    /** Removes the first occurrence of `v`. */
    method Remove(v: T) returns (err: Outcome)
      requires Valid()
      modifies Repr
      ensures Valid() && Repr == old(Repr)
      ensures v !in old(Contents) ==> err == Fail(ItemNotFound) && Contents == old(Contents)
      ensures v in old(Contents) ==>
        var k := IndexOf(old(Contents), v);
        err == Pass && Contents == old(Contents)[..k] + old(Contents)[k + 1..]
    {
      var n, k := SlowGet(v);
      if n == null {
        return Fail(ItemNotFound);
      }
      RemoveNode(n, k);
      return Pass;
    }

    /** Removes some occurrence of `v`: which one depends on the search in `FastGet`. */
    method FastRemove(v: T) returns (err: Outcome)
      requires Valid()
      modifies Repr
      ensures Valid() && Repr == old(Repr)
      ensures v !in old(Contents) ==> err == Fail(ItemNotFound) && Contents == old(Contents)
      ensures v in old(Contents) ==>
        && err == Pass
        && exists k :: 0 <= k < |old(Contents)| && old(Contents)[k] == v
                       && Contents == old(Contents)[..k] + old(Contents)[k + 1..]
    {
      var n, k := FastGet(v);
      if n == null {
        return Fail(ItemNotFound);
      }
      RemoveNode(n, k);
      return Pass;
    }

    /** The elements from first to last, read by walking the `next` links. */
    method ToSlice() returns (s: seq<T>)
      requires Valid()
      ensures s == Contents
    {
      s := [];
      var n := first;
      var i := 0;
      while n != null
        invariant 0 <= i <= |chain|
        invariant n == if i < |chain| then chain[i] else null
        invariant s == Contents[..i]
        decreases |chain| - i
      {
        s := s + [n.value];
        i := i + 1;
        n := n.next;
      }
    }

    /** Appends `other`'s chain to this one in constant time. The nodes are shared
        afterwards: `other` keeps pointing into them and is not valid on its own.
        An empty list concatenated with itself stays empty. */
    method Conc(other: LinkedList<T>)
      requires Valid() && other.Valid()
      requires Repr !! other.Repr || (other == this && Contents == [])
      modifies Repr, other.Repr
      ensures Valid() && (other != this ==> unchanged(other))
      ensures Contents == old(Contents) + old(other.Contents)
      ensures Repr == old(Repr) + old(other.Repr)
    {
      if size == 0 {
        Adopt(other);
      } else if other.size == 0 {
        Repr := Repr + other.Repr;
      } else {
        Link(other);
      }
    }

    /** The branch of `Conc` for an empty receiver: it takes over the other
        list's nodes. */
    method Adopt(other: LinkedList<T>)
      requires Valid() && other.Valid() && (Repr !! other.Repr || other == this) && Contents == []
      modifies this
      ensures Valid() && Contents == old(other.Contents)
      ensures Repr == old(Repr) + old(other.Repr)
      ensures first == old(other.first) && last == old(other.last) && size == old(other.size) && chain == old(other.chain)
    {
      first, last, size := other.first, other.last, other.size;
      chain, Contents := other.chain, other.Contents;
      Repr := Repr + other.Repr;
    }

    /** The splice of `Conc` when both lists are non-empty: `last` and
        `other.first` are linked to each other. */
    method Link(other: LinkedList<T>)
      requires Valid() && other.Valid() && Repr !! other.Repr
      requires Contents != [] && other.Contents != []
      modifies Repr, other.Repr
      ensures Valid() && unchanged(other)
      ensures Contents == old(Contents) + old(other.Contents)
      ensures Repr == old(Repr) + old(other.Repr)
    {
      ghost var r1, r2 := Repr, other.Repr;
      ghost var c1, c2 := chain, other.chain;
      ghost var n1, n2 := |c1|, |c2|;
      last.next := other.first;
      other.first.prev := last;
      last := other.last;
      size := size + other.size;
      chain, Contents := c1 + c2, Contents + other.Contents;
      Repr := r1 + r2;
      assert forall i :: 0 <= i < n1 ==> chain[i] == c1[i];
      assert forall i :: n1 <= i < n1 + n2 ==> chain[i] == c2[i - n1];
      forall i | 0 <= i < n1 + n2 - 1
        ensures chain[i].next == chain[i + 1]
      {
        if i < n1 - 1 {
          assert c1[i] != c1[n1 - 1];
        }
      }
      forall i | 0 < i < n1 + n2
        ensures chain[i].prev == chain[i - 1]
      {
        if n1 < i {
          assert c2[i - n1] != c2[0];
        }
      }
    }

    /** The node holding the first occurrence of `v`, or null. */
    method SlowGet(v: T) returns (n: Node?<T>, ghost k: int)
      requires Valid()
      ensures k == IndexOf(Contents, v)
      ensures n == if k == -1 then null else chain[k]
    {
      var i := 0;
      n := first;
      while n != null
        invariant 0 <= i <= |chain|
        invariant n == if i < |chain| then chain[i] else null
        invariant v !in Contents[..i]
        decreases |chain| - i
      {
        if n.value == v {
          IndexOfUnique(Contents, v, i);
          return n, i;
        }
        assert Contents[..i + 1] == Contents[..i] + [Contents[i]];
        i := i + 1;
        n := n.next;
      }
      assert Contents[..i] == Contents;
      return null, -1;
    }

    /** Below 1000 elements this is `SlowGet`. Above, Go searches the front half
        and the back half in two goroutines and returns whichever match arrives
        first; the model runs the two scans one after the other, so it promises
        only some node holding `v`. */
    method FastGet(v: T) returns (n: Node?<T>, ghost k: int)
      requires Valid()
      ensures n == null <==> v !in Contents
      ensures n != null ==> 0 <= k < |chain| && chain[k] == n && Contents[k] == v
    {
      if size < 1000 {
        n, k := SlowGet(v);
        return;
      }
      var half := size / 2;
      var cur := first;
      var i := 0;
      while i < half
        invariant 0 <= i <= half
        invariant cur == chain[i]
        invariant v !in Contents[..i]
      {
        if v == cur.value {
          return cur, i;
        }
        assert Contents[..i + 1] == Contents[..i] + [Contents[i]];
        cur := cur.next;
        i := i + 1;
      }
      var m := size;
      cur := last;
      while m >= half
        invariant half - 1 <= m <= size
        invariant m >= half ==> cur == chain[m - 1]
        invariant v !in Contents[m..]
      {
        if v == cur.value {
          return cur, m - 1;
        }
        assert Contents[m - 1..] == [Contents[m - 1]] + Contents[m..];
        cur := cur.prev;
        m := m - 1;
      }
      assert Contents == Contents[..half - 1] + Contents[half - 1..];
      assert Contents[..half - 1] == Contents[..half][..half - 1];
      return null, -1;
    }

    /** The node at position `i`, walking from whichever end is nearer. */
    method GetNode(i: int) returns (n: Node?<T>, err: Outcome)
      requires Valid()
      requires 0 <= i || size == 0
      ensures 0 <= i < |chain| ==> err == Pass && n == chain[i]
      ensures !(0 <= i < |chain|) ==> err == Fail(IndexOutOfBound) && n == null
    {
      if size == 0 || i > size - 1 {
        return null, Fail(IndexOutOfBound);
      }
      if i <= size / 2 {
        n := first;
        var p := 0;
        while p != i
          invariant 0 <= p <= i
          invariant n == chain[p]
        {
          n := n.next;
          p := p + 1;
        }
      } else {
        n := last;
        var p := size - 1;
        while p != i
          invariant i <= p < size
          invariant n == chain[p]
        {
          n := n.prev;
          p := p - 1;
        }
      }
      err := Pass;
    }

    /** Unlinks `N`, the node at position `k`, in each of the four cases: the
        only node, the first, the last, or a node in the middle. */
    method RemoveNode(N: Node<T>, ghost k: int)
      requires Valid()
      requires 0 <= k < |chain| && chain[k] == N
      modifies Repr
      ensures Valid() && Repr == old(Repr)
      ensures chain == old(chain[..k] + chain[k + 1..])
      ensures Contents == old(Contents[..k] + Contents[k + 1..])
    {
      if size == 1 {
        UnlinkOnly(N, k);
        return;
      }
      if N.prev == null {
        UnlinkFirst(N, k);
        return;
      }
      if N.next == null {
        UnlinkLast(N, k);
        return;
      }
      UnlinkMiddle(N, k);
    }

    /** Only the first node has no predecessor and only the last no successor. */
    lemma EndsOfChain()
      requires Valid()
      ensures forall k :: 0 <= k < |chain| ==> (chain[k].prev == null <==> k == 0)
      ensures forall k :: 0 <= k < |chain| ==> (chain[k].next == null <==> k == |chain| - 1)
    {
      forall k | 0 <= k < |chain|
        ensures chain[k].prev == null <==> k == 0
        ensures chain[k].next == null <==> k == |chain| - 1
      {
        if k > 0 {
          assert chain[k].prev == chain[k - 1];
        }
        if k < |chain| - 1 {
          assert chain[k].next == chain[k + 1];
        }
      }
    }

    /** The only node: the list becomes empty. */
    method UnlinkOnly(N: Node<T>, ghost k: int)
      requires Valid() && 0 <= k < |chain| && chain[k] == N && size == 1
      modifies Repr
      ensures Valid() && Repr == old(Repr)
      ensures chain == old(chain[..k] + chain[k + 1..])
      ensures Contents == old(Contents[..k] + Contents[k + 1..])
    {
      assert chain[..k] + chain[k + 1..] == [] && Contents[..k] + Contents[k + 1..] == [];
      first, last := null, null;
      size := size - 1;
      chain, Contents := [], [];
    }

    /** The first node of a longer list: its successor becomes `first`. */
    method UnlinkFirst(N: Node<T>, ghost k: int)
      requires Valid() && 0 <= k < |chain| && chain[k] == N && size > 1 && N.prev == null
      modifies Repr
      ensures Valid() && Repr == old(Repr)
      ensures chain == old(chain[..k] + chain[k + 1..])
      ensures Contents == old(Contents[..k] + Contents[k + 1..])
    {
      EndsOfChain();
      assert k == 0 && N.next == chain[1];
      ghost var c, v := chain[1..], Contents[1..];
      assert chain[..k] + chain[k + 1..] == c && Contents[..k] + Contents[k + 1..] == v;
      N.next.prev := null;
      first := N.next;
      size := size - 1;
      chain, Contents := c, v;
    }

    /** The last node of a longer list: its predecessor becomes `last`. */
    method UnlinkLast(N: Node<T>, ghost k: int)
      requires Valid() && 0 <= k < |chain| && chain[k] == N && size > 1 && N.prev != null && N.next == null
      modifies Repr
      ensures Valid() && Repr == old(Repr)
      ensures chain == old(chain[..k] + chain[k + 1..])
      ensures Contents == old(Contents[..k] + Contents[k + 1..])
    {
      EndsOfChain();
      assert k == |chain| - 1 && N.prev == chain[k - 1];
      ghost var c, v := chain[..k], Contents[..k];
      assert chain[..k] + chain[k + 1..] == c && Contents[..k] + Contents[k + 1..] == v;
      N.prev.next := null;
      last := N.prev;
      size := size - 1;
      chain, Contents := c, v;
    }

    /** A node with neighbours on both sides: they are linked to each other. */
    method UnlinkMiddle(N: Node<T>, ghost k: int)
      requires Valid() && 0 <= k < |chain| && chain[k] == N && N.prev != null && N.next != null
      modifies Repr
      ensures Valid() && Repr == old(Repr)
      ensures chain == old(chain[..k] + chain[k + 1..])
      ensures Contents == old(Contents[..k] + Contents[k + 1..])
    {
      assert 0 < k < |chain| - 1 && N.prev == chain[k - 1] && N.next == chain[k + 1];
      ghost var c, v := chain[..k] + chain[k + 1..], Contents[..k] + Contents[k + 1..];
      assert forall i :: 0 <= i < k ==> c[i] == chain[i] && v[i] == Contents[i];
      assert forall i :: k <= i < |c| ==> c[i] == chain[i + 1] && v[i] == Contents[i + 1];
      N.next.prev := N.prev;
      N.prev.next := N.next;
      size := size - 1;
      chain, Contents := c, v;
    }
  }

  /** Builds a list by appending the elements of `s` one by one. */
  method FromSlice<T(==)>(s: seq<T>) returns (l: LinkedList<T>)
    ensures l.Valid() && fresh(l.Repr) && l.Contents == s
  {
    l := new LinkedList();
    var i := 0;
    while i < |s|
      invariant 0 <= i <= |s|
      invariant l.Valid() && fresh(l.Repr) && l.Contents == s[..i]
    {
      assert s[..i + 1] == s[..i] + [s[i]];
      l.AddLast(s[i]);
      i := i + 1;
    }
  }

  /** A slice turned into a list and back is the same slice. */
  method SliceRoundTrip<T(==)>(s: seq<T>) returns (t: seq<T>)
    ensures t == s
  {
    var l := FromSlice(s);
    t := l.ToSlice();
  }

  /** Two lists built from slices and concatenated read back as the two
      slices joined. */
  method ConcSlices<T(==)>(s: seq<T>, u: seq<T>) returns (t: seq<T>)
    ensures t == s + u
  {
    var l := FromSlice(s);
    var m := FromSlice(u);
    l.Conc(m);
    t := l.ToSlice();
  }

  /** An empty list concatenated with itself is still a valid, empty list. */
  method ConcSelfEmpty<T(==)>() returns (t: seq<T>)
    ensures t == []
  {
    var l := new LinkedList<T>();
    l.Conc(l);
    t := l.ToSlice();
  }
}
