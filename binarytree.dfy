/** The unbalanced binary search tree. Go's heap nodes live here in an arena
    `nodes`, indexed by int with -1 for `nil`; a removed node simply becomes
    unreachable. The ghost `tree` is the shape the reachable nodes form, and
    `Valid()` says the arena stores it, it is ordered and `size` counts it. */
module BinaryTree {
  import opened Wrappers
  import opened Traversal
  import opened SearchTree

  /** Go's `node`: an element and the indices of its two children. */
  datatype Cell = Cell(elem: int, left: int, right: int)

  function LeftOf(nodes: seq<Cell>): int -> int {
    (i: int) => if 0 <= i < |nodes| then nodes[i].left else -1
  }

  function RightOf(nodes: seq<Cell>): int -> int {
    (i: int) => if 0 <= i < |nodes| then nodes[i].right else -1
  }

  function ElemOf(nodes: seq<Cell>): int -> int {
    (i: int) => if 0 <= i < |nodes| then nodes[i].elem else 0
  }

  /** The arena holds shape `t`: each node's cell carries its key and its
      children's ids. */
  ghost predicate Stored(t: Shape, nodes: seq<Cell>) {
    t.Node? ==>
      && 0 <= t.id < |nodes|
      && nodes[t.id] == Cell(t.key, RootOf(t.left), RootOf(t.right))
      && Stored(t.left, nodes) && Stored(t.right, nodes)
  }

  lemma {:induction false} StoredIds(t: Shape, nodes: seq<Cell>)
    requires Stored(t, nodes)
    ensures forall i :: i in Ids(t) ==> 0 <= i < |nodes|
  {
    if t.Node? {
      StoredIds(t.left, nodes);
      StoredIds(t.right, nodes);
    }
  }

  /** A stored shape stays stored when the cells of its own nodes are kept. */
  lemma {:induction false} StoredFrame(t: Shape, nodes: seq<Cell>, nodes': seq<Cell>)
    requires Stored(t, nodes)
    requires |nodes| <= |nodes'|
    requires forall i :: i in Ids(t) && 0 <= i < |nodes| ==> nodes'[i] == nodes[i]
    ensures Stored(t, nodes')
  {
    if t.Node? {
      StoredFrame(t.left, nodes, nodes');
      StoredFrame(t.right, nodes, nodes');
    }
  }

  /** What the arena stores is what the traversals and searches read. */
  lemma {:induction false} StoredLinks(t: Shape, nodes: seq<Cell>)
    requires Stored(t, nodes)
    ensures Links(t, LeftOf(nodes), RightOf(nodes), ElemOf(nodes))
  {
    if t.Node? {
      StoredLinks(t.left, nodes);
      StoredLinks(t.right, nodes);
    }
  }

  // Reference definitions of the two updates, on shapes.

  /** The shape after `insert(x)` with the new node given id `id`: x goes left
      of larger keys, right of smaller ones, and nothing changes if x is met. */
  function Inserted(t: Shape, x: int, id: int): Shape {
    if t.Empty? then Node(Empty, id, x, Empty)
    else if x == t.key then t
    else if x < t.key then Node(Inserted(t.left, x, id), t.id, t.key, t.right)
    else Node(t.left, t.id, t.key, Inserted(t.right, x, id))
  }

  /** The shape after node `remove(x)`: a node with two children takes the
      minimum of its right subtree, which is then removed from there; any other
      matching node is replaced by its only child, or by nothing. */
  function Deleted(t: Shape, x: int): Shape {
    if t.Empty? then t
    else if x < t.key then Node(Deleted(t.left, x), t.id, t.key, t.right)
    else if t.key < x then Node(t.left, t.id, t.key, Deleted(t.right, x))
    else if t.left.Node? && t.right.Node? then
      var m := Min(t.right);
      Node(t.left, t.id, m, Deleted(t.right, m))
    else if t.left.Node? then t.left
    else t.right
  }

  lemma {:induction false} InsertedKeys(t: Shape, x: int, id: int)
    requires Ordered(t)
    ensures Keys(Inserted(t, x, id)) == Keys(t) + {x}
    ensures Ordered(Inserted(t, x, id))
    ensures x in Keys(t) ==> Inserted(t, x, id) == t
    ensures Size(Inserted(t, x, id)) == if x in Keys(t) then Size(t) else Size(t) + 1
  {
    if t.Node? && x != t.key {
      if x < t.key {
        InsertedKeys(t.left, x, id);
        assert x !in Keys(t.right);
      } else {
        InsertedKeys(t.right, x, id);
        assert x !in Keys(t.left);
      }
    }
  }

  lemma {:induction false} InsertedIds(t: Shape, x: int, id: int)
    requires Distinct(t) && 0 <= id && id !in Ids(t)
    ensures Distinct(Inserted(t, x, id))
    ensures Ids(Inserted(t, x, id)) <= Ids(t) + {id}
  {
    if t.Node? && x != t.key {
      if x < t.key {
        InsertedIds(t.left, x, id);
      } else {
        InsertedIds(t.right, x, id);
      }
    }
  }

  lemma {:induction false} DeletedKeys(t: Shape, x: int)
    requires Ordered(t)
    ensures Keys(Deleted(t, x)) == Keys(t) - {x}
    ensures Ordered(Deleted(t, x))
    ensures Size(Deleted(t, x)) == if x in Keys(t) then Size(t) - 1 else Size(t)
  {
    if t.Node? {
      if x < t.key {
        DeletedKeys(t.left, x);
        assert x !in Keys(t.right);
      } else if t.key < x {
        DeletedKeys(t.right, x);
        assert x !in Keys(t.left);
      } else if t.left.Node? && t.right.Node? {
        DeletedKeys(t.right, Min(t.right));
        MinReplaces(t, Min(t.right), Deleted(t.right, Min(t.right)));
      }
    }
  }

  /** Removing a root with two children: its place goes to the right minimum
      `m`, and `r` is the right subtree without it. */
  lemma MinReplaces(t: Shape, m: int, r: Shape)
    requires t.Node? && t.right.Node? && Ordered(t) && m == Min(t.right)
    requires Keys(r) == Keys(t.right) - {m} && Ordered(r)
    ensures Keys(Node(t.left, t.id, m, r)) == Keys(t) - {t.key}
    ensures Ordered(Node(t.left, t.id, m, r))
  {
    MinIsLeast(t.right);
    assert t.key !in Keys(t.left) && t.key !in Keys(t.right);
    forall k | k in Keys(r)
      ensures m < k
    {
      assert k in Keys(t.right) - {m};
    }
  }

  lemma {:induction false} DeletedIds(t: Shape, x: int)
    requires Distinct(t)
    ensures Distinct(Deleted(t, x))
    ensures Ids(Deleted(t, x)) <= Ids(t)
    ensures t.Node? && t.key != x ==> RootOf(Deleted(t, x)) == t.id
  {
    if t.Node? {
      if x < t.key {
        DeletedIds(t.left, x);
      } else if t.key < x {
        DeletedIds(t.right, x);
      } else if t.left.Node? && t.right.Node? {
        DeletedIds(t.right, Min(t.right));
      }
    }
  }

  /** The slot of the new node: the node it hangs from and whether it goes left. */
  function Attach(t: Shape, x: int): (int, bool)
    requires t.Node?
  {
    if x < t.key then (if t.left.Empty? then (t.id, true) else Attach(t.left, x))
    else if t.key < x then (if t.right.Empty? then (t.id, false) else Attach(t.right, x))
    else (t.id, true)
  }

  lemma {:induction false} AttachIn(t: Shape, x: int)
    requires t.Node?
    ensures Attach(t, x).0 in Ids(t)
  {
    if x < t.key && t.left.Node? {
      AttachIn(t.left, x);
    } else if t.key < x && t.right.Node? {
      AttachIn(t.right, x);
    }
  }

  /** The arena after a new cell for x at index |nodes| is hung from slot `a`. */
  function Attached(nodes: seq<Cell>, a: (int, bool), x: int): seq<Cell>
    requires 0 <= a.0 < |nodes|
  {
    var c := nodes[a.0];
    (nodes + [Cell(x, -1, -1)])[a.0 := if a.1 then c.(left := |nodes|) else c.(right := |nodes|)]
  }

  /** Hanging the new cell from the slot `Attach` names stores the inserted shape. */
  lemma {:induction false} AttachedStores(t: Shape, x: int, nodes: seq<Cell>)
    requires t.Node? && Stored(t, nodes) && Distinct(t) && Ordered(t) && x !in Keys(t)
    ensures 0 <= Attach(t, x).0 < |nodes|
    ensures Stored(Inserted(t, x, |nodes|), Attached(nodes, Attach(t, x), x))
  {
    var a := Attach(t, x);
    AttachIn(t, x);
    StoredIds(t, nodes);
    var nodes' := Attached(nodes, a, x);
    if x < t.key {
      if t.left.Node? {
        AttachedStores(t.left, x, nodes);
        AttachIn(t.left, x);
        assert a.0 in Ids(t.left) && a.0 != t.id && a.0 !in Ids(t.right);
        assert nodes'[t.id] == nodes[t.id];
      }
      StoredFrame(t.right, nodes, nodes');
    } else {
      if t.right.Node? {
        AttachedStores(t.right, x, nodes);
        AttachIn(t.right, x);
        assert a.0 in Ids(t.right) && a.0 != t.id && a.0 !in Ids(t.left);
        assert nodes'[t.id] == nodes[t.id];
      }
      StoredFrame(t.left, nodes, nodes');
    }
  }

  /** Go's unlink in a parent: the child link that held `was` now holds `now`,
      the left link checked first. */
  function Relink(c: Cell, was: int, now: int): Cell {
    if c.left == was then c.(left := now)
    else if c.right == was then c.(right := now)
    else c
  }

  /** `a` and `b` have the same length and differ at most at the indices in `s`. */
  ghost predicate SameOutside(a: seq<Cell>, b: seq<Cell>, s: set<int>) {
    |a| == |b| && forall i :: 0 <= i < |a| && i !in s ==> a[i] == b[i]
  }

  lemma StoredOutside(t: Shape, a: seq<Cell>, b: seq<Cell>, s: set<int>)
    requires Stored(t, a) && SameOutside(a, b, s) && Ids(t) !! s
    ensures Stored(t, b)
  {
    StoredFrame(t, a, b);
  }

  /** After the left subtree lost x and `sub`'s left link was redirected to
      what remains, the arena stores `sub` without x. */
  lemma DescendedLeft(sub: Shape, x: int, a: seq<Cell>, b: seq<Cell>)
    requires sub.Node? && sub.left.Node? && x < sub.key && Stored(sub, a) && Distinct(sub)
    requires Stored(Deleted(sub.left, x), b) && SameOutside(a, b, Ids(sub.left) + {sub.id})
    requires b[sub.id] == Relink(a[sub.id], sub.left.id, RootOf(Deleted(sub.left, x)))
    ensures Stored(Deleted(sub, x), b) && SameOutside(a, b, Ids(sub))
  {
    StoredOutside(sub.right, a, b, Ids(sub.left) + {sub.id});
  }

  lemma DescendedRight(sub: Shape, x: int, a: seq<Cell>, b: seq<Cell>)
    requires sub.Node? && sub.right.Node? && sub.key < x && Stored(sub, a) && Distinct(sub)
    requires Stored(Deleted(sub.right, x), b) && SameOutside(a, b, Ids(sub.right) + {sub.id})
    requires b[sub.id] == Relink(a[sub.id], sub.right.id, RootOf(Deleted(sub.right, x)))
    ensures Stored(Deleted(sub, x), b) && SameOutside(a, b, Ids(sub))
  {
    StoredOutside(sub.left, a, b, Ids(sub.right) + {sub.id});
  }

  /** The two-child case: the node took the minimum `m` of its right subtree
      (arena `a1`), and the right subtree then lost `m`. */
  lemma ReplacedByMin(sub: Shape, x: int, a: seq<Cell>, a1: seq<Cell>, b: seq<Cell>)
    requires sub.Node? && sub.left.Node? && sub.right.Node? && x == sub.key
    requires Stored(sub, a) && Distinct(sub)
    requires a1 == a[sub.id := a[sub.id].(elem := Min(sub.right))]
    requires Stored(Deleted(sub.right, Min(sub.right)), b)
    requires SameOutside(a1, b, Ids(sub.right) + {sub.id})
    requires b[sub.id] == Relink(a1[sub.id], sub.right.id, RootOf(Deleted(sub.right, Min(sub.right))))
    ensures Stored(Deleted(sub, x), b) && SameOutside(a, b, Ids(sub))
  {
    StoredOutside(sub.left, a, b, Ids(sub.right) + {sub.id});
  }

  /** A matching node with at most one child: its parent's link to it now
      holds the child, so the arena stores the child as the remaining subtree. */
  lemma Unlinked(sub: Shape, x: int, parent: int, a: seq<Cell>, b: seq<Cell>)
    requires sub.Node? && x == sub.key && !(sub.left.Node? && sub.right.Node?)
    requires Stored(sub, a) && 0 <= parent < |a| && parent !in Ids(sub)
    requires b == a[parent := Relink(a[parent], sub.id, RootOf(Deleted(sub, x)))]
    ensures Stored(Deleted(sub, x), b) && SameOutside(a, b, {parent})
  {
    StoredOutside(Deleted(sub, x), a, b, {parent});
  }

  class BinaryTree {
    var size: int
    var root: int
    var nodes: seq<Cell>
    ghost var tree: Shape

    /** Everything but the size count, which `Remove` updates after `remove`. */
    ghost predicate Shaped()
      reads this
    {
      Stored(tree, nodes) && Distinct(tree) && Ordered(tree) && root == RootOf(tree)
    }

    ghost predicate Valid()
      reads this
    {
      Shaped() && size == Traversal.Size(tree)
    }

    ghost function Elements(): set<int>
      reads this
    {
      Keys(tree)
    }

    constructor ()
      ensures Valid() && tree == Shape.Empty
    {
      size, root, nodes := 0, -1, [];
      tree := Shape.Empty;
    }

    method Size() returns (n: int)
      requires Valid()
      ensures n == |Elements()|
    {
      OrderedSize(tree);
      n := size;
    }

    method Empty() returns (b: bool)
      requires Valid()
      ensures b <==> Elements() == {}
    {
      b := size == 0;
    }

    /** Go `Add`: `insert`, then report a duplicate when the size did not grow. */
    method Add(x: int) returns (err: Outcome)
      requires Valid()
      modifies this
      ensures Valid() && tree == Inserted(old(tree), x, |old(nodes)|)
      ensures Elements() == old(Elements()) + {x}
      ensures x in old(Elements()) ==> err == Fail(ItemExists) && size == old(size)
      ensures x !in old(Elements()) ==> err == Pass && size == old(size) + 1
    {
      var oldsize := size;
      Insert(x);
      InsertedKeys(old(tree), x, |old(nodes)|);
      if oldsize == size {
        return Fail(ItemExists);
      }
      return Pass;
    }

    /** Go `insert`: walk down from the root and hang a new node from the first
        free slot on the way; stop at an equal element. */
    method Insert(x: int)
      requires Valid()
      modifies this
      ensures Valid() && tree == Inserted(old(tree), x, |old(nodes)|)
    {
      var id := |nodes|;
      StoredIds(tree, nodes);
      InsertedKeys(tree, x, id);
      InsertedIds(tree, x, id);
      if root == -1 {
        nodes := nodes + [Cell(x, -1, -1)];
        root := id;
        size := size + 1;
        tree := Node(Shape.Empty, id, x, Shape.Empty);
        return;
      }
      var cur := root;
      ghost var sub := tree;
      while cur != -1
        invariant sub.Node? && cur == sub.id && Stored(sub, nodes) && Ordered(sub)
        invariant x in Keys(tree) <==> x in Keys(sub)
        invariant x !in Keys(tree) ==> Attach(tree, x) == Attach(sub, x)
        decreases Traversal.Size(sub)
      {
        var c := nodes[cur];
        if x == c.elem {
          return;
        } else if x < c.elem {
          if c.left == -1 {
            AttachedStores(tree, x, nodes);
            nodes := nodes + [Cell(x, -1, -1)];
            nodes := nodes[cur := c.(left := id)];
            size := size + 1;
            tree := Inserted(tree, x, id);
            return;
          }
          cur := c.left;
          sub := sub.left;
        } else {
          if c.right == -1 {
            AttachedStores(tree, x, nodes);
            nodes := nodes + [Cell(x, -1, -1)];
            nodes := nodes[cur := c.(right := id)];
            size := size + 1;
            tree := Inserted(tree, x, id);
            return;
          }
          cur := c.right;
          sub := sub.right;
        }
      }
    }

    /** Go `Remove`: `remove`, then count the node out. */
    method Remove(x: int) returns (err: Outcome)
      requires Valid()
      modifies this
      ensures Valid() && tree == Deleted(old(tree), x)
      ensures Elements() == old(Elements()) - {x}
      ensures x !in old(Elements()) ==> err == Fail(ItemNotFound) && size == old(size)
      ensures x in old(Elements()) ==> err == Pass && size == old(size) - 1
    {
      DeletedKeys(tree, x);
      var removed := Delete(x);
      if !removed {
        return Fail(ItemNotFound);
      }
      size := size - 1;
      return Pass;
    }

    /** Go tree-level `remove`: a matching root is removed through a dummy
        parent whose left link then holds the new root. */
    method Delete(x: int) returns (removed: bool)
      requires Shaped()
      modifies this
      ensures Shaped() && tree == Deleted(old(tree), x) && size == old(size)
      ensures removed <==> x in old(Elements())
    {
      ghost var t := tree;
      DeletedIds(t, x);
      DeletedKeys(t, x);
      if root == -1 {
        return false;
      }
      StoredIds(t, nodes);
      if nodes[root].elem == x {
        var d := |nodes|;
        ghost var before := nodes;
        nodes := nodes + [Cell(0, root, -1)];
        StoredFrame(t, before, nodes);
        removed := DeleteBelow(root, x, d, t);
        root := nodes[d].left;
      } else {
        removed := DeleteBelow(root, x, -1, t);
      }
      tree := Deleted(t, x);
    }

    /** Go node-level `remove`, on the subtree `sub` rooted at `n` whose parent
        is `parent` (-1 for none). Go dereferences the parent only to unlink a
        matching node with at most one child, which it never does at the root. */
    method DeleteBelow(n: int, x: int, parent: int, ghost sub: Shape) returns (found: bool)
      requires sub.Node? && n == sub.id && Stored(sub, nodes) && Distinct(sub) && Ordered(sub)
      requires parent == -1 ==> sub.key != x || (sub.left.Node? && sub.right.Node?)
      requires parent != -1 ==> 0 <= parent < |nodes| && parent !in Ids(sub)
      modifies this
      ensures found <==> x in Keys(sub)
      ensures Stored(Deleted(sub, x), nodes) && SameOutside(old(nodes), nodes, Ids(sub) + {parent})
      ensures parent != -1 ==> nodes[parent] == Relink(old(nodes[parent]), n, RootOf(Deleted(sub, x)))
      ensures root == old(root) && size == old(size) && tree == old(tree)
      decreases sub
    {
      var c := nodes[n];
      if x < c.elem {
        if c.left != -1 {
          found := DeleteBelow(c.left, x, n, sub.left);
          DescendedLeft(sub, x, old(nodes), nodes);
          assert x !in Keys(sub.right);
        } else {
          found := false;
        }
      } else if c.elem < x {
        if c.right != -1 {
          found := DeleteBelow(c.right, x, n, sub.right);
          DescendedRight(sub, x, old(nodes), nodes);
          assert x !in Keys(sub.left);
        } else {
          found := false;
        }
      } else {
        if c.left != -1 && c.right != -1 {
          StoredLinks(sub.right, nodes);
          StoredIds(sub.right, nodes);
          var m := FindMin(c.right, LeftOf(nodes), RightOf(nodes), ElemOf(nodes), sub.right);
          nodes := nodes[n := c.(elem := nodes[m].elem)];
          ghost var a1 := nodes;
          StoredFrame(sub.right, old(nodes), nodes);
          var _ := DeleteBelow(c.right, nodes[n].elem, n, sub.right);
          ReplacedByMin(sub, x, old(nodes), a1, nodes);
        } else if nodes[parent].left == n {
          if c.left != -1 {
            nodes := nodes[parent := nodes[parent].(left := c.left)];
          } else {
            nodes := nodes[parent := nodes[parent].(left := c.right)];
          }
          Unlinked(sub, x, parent, old(nodes), nodes);
        } else if nodes[parent].right == n {
          if c.left != -1 {
            nodes := nodes[parent := nodes[parent].(right := c.left)];
          } else {
            nodes := nodes[parent := nodes[parent].(right := c.right)];
          }
          Unlinked(sub, x, parent, old(nodes), nodes);
        } else {
          Unlinked(sub, x, parent, old(nodes), nodes);
        }
        found := true;
      }
    }

    method Contains(x: int) returns (b: bool)
      requires Valid()
      ensures b <==> x in Elements()
    {
      StoredLinks(tree, nodes);
      var n := Get(root, LeftOf(nodes), RightOf(nodes), ElemOf(nodes), tree, x);
      b := n != -1;
    }

    /** The smallest element, or None on an empty tree. */
    method First() returns (r: Option<int>)
      requires Valid()
      ensures r.None? <==> Elements() == {}
      ensures r.Some? ==> r.value in Elements() && forall k :: k in Elements() ==> r.value <= k
    {
      if size == 0 {
        return None;
      }
      StoredLinks(tree, nodes);
      MinIsLeast(tree);
      var m := FindMin(root, LeftOf(nodes), RightOf(nodes), ElemOf(nodes), tree);
      StoredIds(tree, nodes);
      r := Some(nodes[m].elem);
    }

    /** The largest element, or None on an empty tree. */
    method Last() returns (r: Option<int>)
      requires Valid()
      ensures r.None? <==> Elements() == {}
      ensures r.Some? ==> r.value in Elements() && forall k :: k in Elements() ==> k <= r.value
    {
      if size == 0 {
        return None;
      }
      StoredLinks(tree, nodes);
      MaxIsGreatest(tree);
      var m := FindMax(root, LeftOf(nodes), RightOf(nodes), ElemOf(nodes), tree);
      StoredIds(tree, nodes);
      r := Some(nodes[m].elem);
    }

    /** Left subtree, node, right subtree: the elements in increasing order. */
    method InOrder() returns (s: seq<int>)
      requires Valid()
      ensures s == Traversal.InOrder(tree) && Increasing(s) && |s| == size
      ensures forall k :: k in s <==> k in Elements()
    {
      Traversal.InOrderSize(tree);
      StoredLinks(tree, nodes);
      OrderedIffIncreasing(tree);
      KeysInOrder(tree);
      s := InOrderWalk(root, LeftOf(nodes), RightOf(nodes), ElemOf(nodes), tree);
    }

    /** Node, left subtree, right subtree. */
    method PreOrder() returns (s: seq<int>)
      requires Valid()
      ensures s == Traversal.PreOrder(tree)
      ensures multiset(s) == multiset(Traversal.InOrder(tree))
    {
      PreOrderPermutesInOrder(tree);
      if size == 0 {
        return [];
      }
      StoredLinks(tree, nodes);
      s := PreOrderWalk(root, LeftOf(nodes), RightOf(nodes), ElemOf(nodes), tree);
    }

    /** Left subtree, right subtree, node. */
    method PostOrder() returns (s: seq<int>)
      requires Valid()
      ensures s == Traversal.PostOrder(tree)
      ensures multiset(s) == multiset(Traversal.InOrder(tree))
    {
      PostOrderPermutesInOrder(tree);
      if size == 0 {
        return [];
      }
      StoredLinks(tree, nodes);
      s := PostOrderWalk(root, LeftOf(nodes), RightOf(nodes), ElemOf(nodes), tree);
    }

    /** Breadth first, each level left to right. */
    method LevelOrder() returns (s: seq<int>)
      requires Valid()
      ensures s == Traversal.LevelOrder(tree)
      ensures multiset(s) == multiset(Traversal.InOrder(tree))
    {
      LevelOrderPermutesInOrder(tree);
      if size == 0 {
        return [];
      }
      StoredLinks(tree, nodes);
      s := LevelOrderWalk(root, LeftOf(nodes), RightOf(nodes), ElemOf(nodes), tree);
    }
  }

  /** Adding 10, 5 and 15 to a new tree hangs 5 to the left of 10 and 15 to its
      right; adding 10 again is refused, and the four walks see that shape. */
  method AddThenWalks() returns (inorder: seq<int>, pre: seq<int>, post: seq<int>, level: seq<int>, again: Outcome)
    ensures inorder == [5, 10, 15] && pre == [10, 5, 15] && post == [5, 15, 10] && level == [10, 5, 15]
    ensures again == Fail(ItemExists)
  {
    var t := Filled();
    again := t.Add(10);
    inorder := t.InOrder();
    pre := t.PreOrder();
    post := t.PostOrder();
    level := t.LevelOrder();
    WalksOfThree(t.tree);
  }

  /** A new tree after `Add(10)`, `Add(5)` and `Add(15)`. */
  method Filled() returns (t: BinaryTree)
    ensures fresh(t) && t.Valid() && Three(t.tree) && [t.tree.left.key, t.tree.key, t.tree.right.key] == [5, 10, 15]
  {
    t := new BinaryTree();
    var _ := t.Add(10);
    assert t.tree.Node? && t.tree.key == 10 && t.tree.left.Empty? && t.tree.right.Empty?;
    var _ := t.Add(5);
    assert t.tree.left.Node? && t.tree.left.key == 5 && t.tree.left.left.Empty? && t.tree.left.right.Empty?;
    var _ := t.Add(15);
  }
}
