/** The four traversals that the binary search tree and the red-black tree
    share (the Go code is the same in both files). Each walks the nodes with an
    explicit stack or queue of node ids, reading a node's children and key
    through the functions `left`, `right` and `key`, where -1 stands for `nil`.
    The ghost `Shape` is the tree those functions describe, and each traversal
    is proved to produce its recursive reference order over that shape. */
module Traversal {
  datatype Shape = Empty | Node(left: Shape, id: int, key: int, right: Shape)

  function RootOf(t: Shape): int {
    if t.Empty? then -1 else t.id
  }

  function Size(t: Shape): nat {
    if t.Empty? then 0 else 1 + Size(t.left) + Size(t.right)
  }

  function Ids(t: Shape): set<int> {
    if t.Empty? then {} else Ids(t.left) + {t.id} + Ids(t.right)
  }

  /** No two nodes share an id. */
  ghost predicate Distinct(t: Shape) {
    t.Node? ==>
      && t.id !in Ids(t.left) && t.id !in Ids(t.right)
      && Ids(t.left) !! Ids(t.right)
      && Distinct(t.left) && Distinct(t.right)
  }

  /** `left`, `right` and `key` describe the shape `t` at each of its nodes,
      whose ids are non-negative (-1 is `nil`). */
  ghost predicate Links(t: Shape, left: int -> int, right: int -> int, key: int -> int) {
    t.Node? ==>
      && 0 <= t.id
      && left(t.id) == RootOf(t.left)
      && right(t.id) == RootOf(t.right)
      && key(t.id) == t.key
      && Links(t.left, left, right, key)
      && Links(t.right, left, right, key)
  }

  ghost predicate Walkable(t: Shape, left: int -> int, right: int -> int, key: int -> int) {
    Distinct(t) && Links(t, left, right, key)
  }

  // Reference orders.

  function InOrder(t: Shape): seq<int> {
    if t.Empty? then [] else InOrder(t.left) + [t.key] + InOrder(t.right)
  }

  function PreOrder(t: Shape): seq<int> {
    if t.Empty? then [] else [t.key] + PreOrder(t.left) + PreOrder(t.right)
  }

  function PostOrder(t: Shape): seq<int> {
    if t.Empty? then [] else PostOrder(t.left) + PostOrder(t.right) + [t.key]
  }

  function Present(t: Shape): seq<Shape> {
    if t.Empty? then [] else [t]
  }

  function SizeF(f: seq<Shape>): nat {
    if f == [] then 0 else Size(f[0]) + SizeF(f[1..])
  }

  /** The keys of the roots of a forest, left to right. */
  function Roots(f: seq<Shape>): seq<int> {
    if f == [] then [] else (if f[0].Empty? then [] else [f[0].key]) + Roots(f[1..])
  }

  /** The next level of a forest: the non-empty children of its roots, left to right. */
  function Children(f: seq<Shape>): seq<Shape> {
    if f == [] then []
    else if f[0].Empty? then Children(f[1..])
    else Present(f[0].left) + Present(f[0].right) + Children(f[1..])
  }

  lemma {:induction false} SizeFAppend(f: seq<Shape>, g: seq<Shape>)
    ensures SizeF(f + g) == SizeF(f) + SizeF(g)
  {
    if f != [] {
      assert (f + g)[0] == f[0] && (f + g)[1..] == f[1..] + g;
      SizeFAppend(f[1..], g);
    } else {
      assert f + g == g;
    }
  }

  lemma {:induction false} ChildrenSmaller(f: seq<Shape>)
    ensures SizeF(Children(f)) <= SizeF(f)
    ensures SizeF(Children(f)) == SizeF(f) ==> Children(f) == []
  {
    if f != [] {
      ChildrenSmaller(f[1..]);
      if f[0].Node? {
        var p := Present(f[0].left) + Present(f[0].right);
        SizeFAppend(p, Children(f[1..]));
        SizeFAppend(Present(f[0].left), Present(f[0].right));
      }
    }
  }

  /** Breadth-first order of a forest: its roots, then the next level's. */
  function Levels(f: seq<Shape>): seq<int>
    decreases SizeF(f), |f|
  {
    if f == [] then []
    else
      ChildrenSmaller(f);
      Roots(f) + Levels(Children(f))
  }

  function LevelOrder(t: Shape): seq<int> {
    Levels([t])
  }

  /** A root with one node on each side. */
  ghost predicate Three(p: Shape) {
    && p.Node? && p.left.Node? && p.right.Node?
    && p.left.left.Empty? && p.left.right.Empty? && p.right.left.Empty? && p.right.right.Empty?
  }

  /** The four walks of a root with one node on each side. */
  lemma WalksOfThree(p: Shape)
    requires Three(p)
    ensures InOrder(p) == [p.left.key, p.key, p.right.key]
    ensures PreOrder(p) == [p.key, p.left.key, p.right.key]
    ensures PostOrder(p) == [p.left.key, p.right.key, p.key]
    ensures LevelOrder(p) == [p.key, p.left.key, p.right.key]
  {
    var a, b, c := p.left.key, p.key, p.right.key;
    assert PreOrder(p.left) == [a] && PreOrder(p.right) == [c];
    assert PostOrder(p.left) == [a] && PostOrder(p.right) == [c];
    assert InOrder(p.left) == [a] && InOrder(p.right) == [c];
    assert [b] + [a] + [c] == [b, a, c] && [a] + [c] + [b] == [a, c, b] && [a] + [b] + [c] == [a, b, c];
    LevelsOfThree(p);
  }

  lemma LevelsOfThree(p: Shape)
    requires Three(p)
    ensures LevelOrder(p) == [p.key, p.left.key, p.right.key]
  {
    var kids := [p.left, p.right];
    assert [p][1..] == [] && kids[1..] == [p.right] && kids[1..][1..] == [];
    assert Children([p]) == kids && Roots([p]) == [p.key];
    assert Roots(kids) == [p.left.key, p.right.key] && Children(kids) == [];
    assert Levels(kids) == [p.left.key, p.right.key];
  }

  /** The in-order sequence has one key per node. */
  lemma {:induction false} InOrderSize(t: Shape)
    ensures |InOrder(t)| == Size(t)
  {
    if t.Node? {
      InOrderSize(t.left);
      InOrderSize(t.right);
    }
  }

  // Every traversal emits every key exactly once.

  lemma {:induction false} PreOrderPermutesInOrder(t: Shape)
    ensures multiset(PreOrder(t)) == multiset(InOrder(t))
  {
    if t.Node? {
      PreOrderPermutesInOrder(t.left);
      PreOrderPermutesInOrder(t.right);
    }
  }

  lemma {:induction false} PostOrderPermutesInOrder(t: Shape)
    ensures multiset(PostOrder(t)) == multiset(InOrder(t))
  {
    if t.Node? {
      PostOrderPermutesInOrder(t.left);
      PostOrderPermutesInOrder(t.right);
    }
  }

  /** All keys of a forest, counted with multiplicity. */
  function KeysF(f: seq<Shape>): multiset<int> {
    if f == [] then multiset{} else multiset(InOrder(f[0])) + KeysF(f[1..])
  }

  lemma {:induction false} KeysFAppend(f: seq<Shape>, g: seq<Shape>)
    ensures KeysF(f + g) == KeysF(f) + KeysF(g)
  {
    if f != [] {
      assert (f + g)[0] == f[0] && (f + g)[1..] == f[1..] + g;
      KeysFAppend(f[1..], g);
    } else {
      assert f + g == g;
    }
  }

  lemma KeysFPresent(t: Shape)
    ensures KeysF(Present(t)) == multiset(InOrder(t))
  {
    if t.Node? {
      assert [t][1..] == [];
    }
  }

  lemma {:induction false} RootsAndChildren(f: seq<Shape>)
    ensures multiset(Roots(f)) + KeysF(Children(f)) == KeysF(f)
  {
    if f != [] {
      RootsAndChildren(f[1..]);
      if f[0].Node? {
        var t := f[0];
        var kids := Present(t.left) + Present(t.right);
        KeysFAppend(kids, Children(f[1..]));
        KeysFAppend(Present(t.left), Present(t.right));
        KeysFPresent(t.left);
        KeysFPresent(t.right);
        assert multiset(InOrder(t)) == multiset(InOrder(t.left)) + multiset{t.key} + multiset(InOrder(t.right));
        assert Roots(f) == [t.key] + Roots(f[1..]);
        assert Children(f) == kids + Children(f[1..]);
        assert KeysF(f) == multiset(InOrder(t)) + KeysF(f[1..]);
      } else {
        assert Roots(f) == Roots(f[1..]);
        assert Children(f) == Children(f[1..]);
        assert KeysF(f) == KeysF(f[1..]);
      }
    }
  }

  lemma {:induction false} LevelsPermutesKeys(f: seq<Shape>)
    ensures multiset(Levels(f)) == KeysF(f)
    decreases SizeF(f), |f|
  {
    if f != [] {
      ChildrenSmaller(f);
      LevelsPermutesKeys(Children(f));
      RootsAndChildren(f);
    }
  }

  lemma LevelOrderPermutesInOrder(t: Shape)
    ensures multiset(LevelOrder(t)) == multiset(InOrder(t))
  {
    LevelsPermutesKeys([t]);
    assert KeysF([t]) == multiset(InOrder(t)) + KeysF([]);
  }

  // The traversals. Go keeps the pending nodes in a `stack.Stack` or a
  // `queue.Queue`; here that container is a sequence of node ids, with the top
  // of the stack and the head of the queue at index 0.

  /** The ids of a sequence of subtrees. */
  function IdsOf(fs: seq<Shape>): (r: seq<int>)
    ensures |r| == |fs|
  {
    if fs == [] then [] else [RootOf(fs[0])] + IdsOf(fs[1..])
  }

  lemma {:induction false} IdsOfAppend(f: seq<Shape>, g: seq<Shape>)
    ensures IdsOf(f + g) == IdsOf(f) + IdsOf(g)
  {
    if f != [] {
      assert (f + g)[0] == f[0] && (f + g)[1..] == f[1..] + g;
      IdsOfAppend(f[1..], g);
    } else {
      assert f + g == g;
    }
  }

  /** Every pending subtree is a node whose links the walk can follow. */
  ghost predicate Frames(fs: seq<Shape>, left: int -> int, right: int -> int, key: int -> int) {
    fs != [] ==> fs[0].Node? && Links(fs[0], left, right, key) && Frames(fs[1..], left, right, key)
  }

  lemma {:induction false} FramesAppend(f: seq<Shape>, g: seq<Shape>, left: int -> int, right: int -> int, key: int -> int)
    ensures Frames(f + g, left, right, key) <==> Frames(f, left, right, key) && Frames(g, left, right, key)
  {
    if f != [] {
      assert (f + g)[0] == f[0] && (f + g)[1..] == f[1..] + g;
      FramesAppend(f[1..], g, left, right, key);
    } else {
      assert f + g == g;
    }
  }

  /** What the in-order walk still has to emit for the nodes on its stack:
      each node's key followed by its right subtree. */
  function PendingIn(fs: seq<Shape>): seq<int> {
    if fs == [] then []
    else if fs[0].Empty? then PendingIn(fs[1..])
    else [fs[0].key] + InOrder(fs[0].right) + PendingIn(fs[1..])
  }

  /** The in-order walk's loop invariant: `nodes` is its stack, `current` the
      subtree it is descending, and what is emitted, what is left of `cur` and
      what is pending on the stack make up the whole in-order sequence. */
  ghost predicate InOrderState(out: seq<int>, nodes: seq<int>, current: int, cur: Shape, frames: seq<Shape>,
                               whole: seq<int>, left: int -> int, right: int -> int, key: int -> int) {
    && nodes == IdsOf(frames)
    && current == RootOf(cur) && Links(cur, left, right, key)
    && Frames(frames, left, right, key)
    && out + InOrder(cur) + PendingIn(frames) == whole
  }

  lemma InOrderPush(out: seq<int>, nodes: seq<int>, cur: Shape, frames: seq<Shape>, whole: seq<int>,
                    left: int -> int, right: int -> int, key: int -> int)
    requires InOrderState(out, nodes, RootOf(cur), cur, frames, whole, left, right, key) && cur.Node?
    ensures InOrderState(out, [cur.id] + nodes, left(cur.id), cur.left, [cur] + frames, whole, left, right, key)
    ensures Size(cur.left) < Size(cur)
  {
    PushFrame(cur, frames, left, right, key);
    PushPending(out, cur, frames);
  }

  lemma PushFrame(cur: Shape, frames: seq<Shape>, left: int -> int, right: int -> int, key: int -> int)
    requires cur.Node? && Links(cur, left, right, key) && Frames(frames, left, right, key)
    ensures IdsOf([cur] + frames) == [cur.id] + IdsOf(frames)
    ensures Frames([cur] + frames, left, right, key)
  {
    assert ([cur] + frames)[1..] == frames;
  }

  lemma PushPending(out: seq<int>, cur: Shape, frames: seq<Shape>)
    requires cur.Node?
    ensures out + InOrder(cur.left) + PendingIn([cur] + frames) == out + InOrder(cur) + PendingIn(frames)
  {
    assert ([cur] + frames)[1..] == frames;
    assert PendingIn([cur] + frames) == [cur.key] + InOrder(cur.right) + PendingIn(frames);
  }

  lemma InOrderPop(out: seq<int>, nodes: seq<int>, cur: Shape, frames: seq<Shape>, whole: seq<int>,
                   left: int -> int, right: int -> int, key: int -> int)
    requires InOrderState(out, nodes, -1, cur, frames, whole, left, right, key) && nodes != []
    ensures frames != [] && frames[0].Node? && nodes[0] == frames[0].id
    ensures InOrderState(out + [key(nodes[0])], nodes[1..], right(nodes[0]), frames[0].right, frames[1..], whole, left, right, key)
    ensures |out| < |whole|
  {
    assert InOrder(cur) == [];
    assert PendingIn(frames) == [frames[0].key] + InOrder(frames[0].right) + PendingIn(frames[1..]);
    assert (out + [frames[0].key]) + InOrder(frames[0].right) + PendingIn(frames[1..]) == whole;
  }

  /** Go `InOrder`: go left as far as possible pushing the nodes passed, then pop
      one, emit it and continue with its right subtree. */
  method InOrderWalk(root: int, left: int -> int, right: int -> int, key: int -> int, ghost t: Shape)
    returns (out: seq<int>)
    requires Links(t, left, right, key) && root == RootOf(t)
    ensures out == InOrder(t)
  {
    out := [];
    var nodes: seq<int> := [];
    var current := root;
    ghost var cur := t;
    ghost var frames: seq<Shape> := [];
    while true
      invariant InOrderState(out, nodes, current, cur, frames, InOrder(t), left, right, key)
      decreases |InOrder(t)| - |out|, Size(cur)
    {
      if current != -1 {
        InOrderPush(out, nodes, cur, frames, InOrder(t), left, right, key);
        nodes := [current] + nodes;
        frames := [cur] + frames;
        current := left(current);
        cur := cur.left;
      } else {
        if nodes == [] {
          assert InOrder(cur) == [] && PendingIn(frames) == [];
          break;
        }
        InOrderPop(out, nodes, cur, frames, InOrder(t), left, right, key);
        var top := nodes[0];
        nodes := nodes[1..];
        out := out + [key(top)];
        current := right(top);
        cur := frames[0].right;
        frames := frames[1..];
      }
    }
  }

  /** What the pre-order walk still has to emit: the subtrees on its stack, top first. */
  function PendingPre(fs: seq<Shape>): seq<int> {
    if fs == [] then [] else PreOrder(fs[0]) + PendingPre(fs[1..])
  }

  lemma {:induction false} PendingPreAppend(f: seq<Shape>, g: seq<Shape>)
    ensures PendingPre(f + g) == PendingPre(f) + PendingPre(g)
  {
    if f != [] {
      assert (f + g)[0] == f[0] && (f + g)[1..] == f[1..] + g;
      PendingPreAppend(f[1..], g);
    } else {
      assert f + g == g;
    }
  }

  lemma PresentFacts(x: Shape, left: int -> int, right: int -> int, key: int -> int)
    requires Links(x, left, right, key)
    ensures PendingPre(Present(x)) == PreOrder(x)
    ensures IdsOf(Present(x)) == if x.Empty? then [] else [x.id]
    ensures Frames(Present(x), left, right, key)
  {
    if x.Node? {
      assert [x][1..] == [];
    }
  }

  /** What a popped node hands back to the walk: its non-empty children. */
  lemma KidsFacts(f: Shape, left: int -> int, right: int -> int, key: int -> int)
    requires f.Node? && Links(f, left, right, key)
    ensures key(f.id) == f.key
    ensures left(f.id) == RootOf(f.left) && (RootOf(f.left) == -1 <==> f.left.Empty?)
    ensures right(f.id) == RootOf(f.right) && (RootOf(f.right) == -1 <==> f.right.Empty?)
    ensures Frames(Kids(f), left, right, key)
    ensures IdsOf(Kids(f)) == (if f.left.Empty? then [] else [f.left.id]) + (if f.right.Empty? then [] else [f.right.id])
    ensures PendingPre(Kids(f)) == PreOrder(f.left) + PreOrder(f.right)
  {
    PresentFacts(f.left, left, right, key);
    PresentFacts(f.right, left, right, key);
    FramesAppend(Present(f.left), Present(f.right), left, right, key);
    IdsOfAppend(Present(f.left), Present(f.right));
    PendingPreAppend(Present(f.left), Present(f.right));
  }

  lemma PreOrderStep(out: seq<int>, f: Shape, rest: seq<Shape>, whole: seq<int>, left: int -> int, right: int -> int, key: int -> int)
    requires f.Node? && out + PendingPre([f] + rest) == whole
    requires Frames([f] + rest, left, right, key)
    ensures (out + [f.key]) + PendingPre(Kids(f) + rest) == whole
    ensures Frames(Kids(f) + rest, left, right, key)
    ensures key(f.id) == f.key
    ensures left(f.id) == RootOf(f.left) && (RootOf(f.left) == -1 <==> f.left.Empty?)
    ensures right(f.id) == RootOf(f.right) && (RootOf(f.right) == -1 <==> f.right.Empty?)
    ensures IdsOf([f] + rest) == [f.id] + IdsOf(rest)
    ensures IdsOf(Kids(f) + rest) ==
      (if f.left.Empty? then [] else [f.left.id]) + (if f.right.Empty? then [] else [f.right.id]) + IdsOf(rest)
  {
    assert ([f] + rest)[0] == f && ([f] + rest)[1..] == rest;
    KidsFacts(f, left, right, key);
    PreOrderPending(out, f, rest, whole);
    IdsOfAppend(Kids(f), rest);
    FramesAppend(Kids(f), rest, left, right, key);
  }

  lemma PreOrderPending(out: seq<int>, f: Shape, rest: seq<Shape>, whole: seq<int>)
    requires f.Node? && out + PendingPre([f] + rest) == whole
    ensures (out + [f.key]) + PendingPre(Kids(f) + rest) == whole
  {
    assert ([f] + rest)[0] == f && ([f] + rest)[1..] == rest;
    PendingPreAppend(Kids(f), rest);
    PendingPreAppend(Present(f.left), Present(f.right));
    assert PendingPre(Present(f.left)) == PreOrder(f.left) by {
      if f.left.Node? { assert [f.left][1..] == []; }
    }
    assert PendingPre(Present(f.right)) == PreOrder(f.right) by {
      if f.right.Node? { assert [f.right][1..] == []; }
    }
  }

  /** Go `PreOrder`: pop a node, emit it, push its right child and then its left. */
  method PreOrderWalk(root: int, left: int -> int, right: int -> int, key: int -> int, ghost t: Shape)
    returns (out: seq<int>)
    requires Links(t, left, right, key) && root == RootOf(t)
    ensures out == PreOrder(t)
  {
    out := [];
    if root == -1 {
      return;
    }
    var nodes := [root];
    ghost var frames := [t];
    assert PendingPre(frames) == PreOrder(t) + PendingPre([]);
    while nodes != []
      invariant nodes == IdsOf(frames)
      invariant Frames(frames, left, right, key)
      invariant out + PendingPre(frames) == PreOrder(t)
      decreases |PreOrder(t)| - |out|
    {
      ghost var f := frames[0];
      assert [f] + frames[1..] == frames;
      PreOrderStep(out, f, frames[1..], PreOrder(t), left, right, key);
      var current := nodes[0];
      nodes := nodes[1..];
      out := out + [key(current)];
      if right(current) != -1 {
        nodes := [right(current)] + nodes;
      }
      if left(current) != -1 {
        nodes := [left(current)] + nodes;
      }
      frames := Kids(f) + frames[1..];
      assert nodes == IdsOf(frames);
    }
  }

  function Kids(t: Shape): seq<Shape>
    requires t.Node?
  {
    Present(t.left) + Present(t.right)
  }

  lemma QueueStepSmaller(q: seq<Shape>)
    requires q != [] && q[0].Node?
    ensures SizeF(q[1..] + Kids(q[0])) < SizeF(q)
  {
    var t := q[0];
    SizeFAppend(q[1..], Kids(t));
    SizeFAppend(Present(t.left), Present(t.right));
    assert SizeF(Present(t.left)) == Size(t.left) by {
      if t.left.Node? { assert [t.left][1..] == []; }
    }
    assert SizeF(Present(t.right)) == Size(t.right) by {
      if t.right.Node? { assert [t.right][1..] == []; }
    }
  }

  /** The keys a first-in-first-out queue holding the subtrees `q` emits when
      each polled node's non-empty children are offered behind it. */
  function QueueOrder(q: seq<Shape>): seq<int>
    decreases SizeF(q), |q|
  {
    if q == [] then []
    else if q[0].Empty? then QueueOrder(q[1..])
    else
      QueueStepSmaller(q);
      [q[0].key] + QueueOrder(q[1..] + Kids(q[0]))
  }

  lemma QueueOrderCons(x: Shape, rest: seq<Shape>)
    ensures QueueOrder([x] + rest) ==
      if x.Empty? then QueueOrder(rest) else [x.key] + QueueOrder(rest + Kids(x))
  {
    assert ([x] + rest)[0] == x && ([x] + rest)[1..] == rest;
  }

  lemma LevelCons(x: Shape, rest: seq<Shape>)
    ensures Roots([x] + rest) == (if x.Empty? then [] else [x.key]) + Roots(rest)
    ensures Children([x] + rest) == (if x.Empty? then [] else Kids(x)) + Children(rest)
  {
    assert ([x] + rest)[0] == x && ([x] + rest)[1..] == rest;
  }

  /** Polling every tree of `a` emits their roots and queues their children
      behind `b`. */
  lemma {:induction false} QueueOrderSplit(a: seq<Shape>, b: seq<Shape>)
    ensures QueueOrder(a + b) == Roots(a) + QueueOrder(b + Children(a))
    decreases |a|
  {
    if a == [] {
      assert a + b == b && b + Children(a) == b;
    } else {
      var x, a' := a[0], a[1..];
      assert a == [x] + a';
      assert a + b == [x] + (a' + b);
      QueueOrderCons(x, a' + b);
      LevelCons(x, a');
      if x.Empty? {
        QueueOrderSplit(a', b);
        assert Roots(a) == Roots(a') && Children(a) == Children(a');
        assert QueueOrder(a + b) == QueueOrder(a' + b);
      } else {
        var b' := b + Kids(x);
        assert (a' + b) + Kids(x) == a' + b';
        QueueOrderSplit(a', b');
        assert QueueOrder(a + b) == [x.key] + QueueOrder(a' + b');
        assert QueueOrder(a' + b') == Roots(a') + QueueOrder(b' + Children(a'));
        assert b + Children(a) == b' + Children(a');
        assert Roots(a) == [x.key] + Roots(a');
      }
    }
  }

  /** The queue emits the forest level by level. */
  lemma {:induction false} QueueOrderIsLevels(f: seq<Shape>)
    ensures QueueOrder(f) == Levels(f)
    decreases SizeF(f), |f|
  {
    if f != [] {
      QueueOrderSplit(f, []);
      assert f + [] == f && [] + Children(f) == Children(f);
      ChildrenSmaller(f);
      QueueOrderIsLevels(Children(f));
    }
  }

  /** One poll of the level-order loop: the head of the queue is a node whose
      links the walk follows, and after it is emitted and its children are
      offered the queue is still made of such nodes. */
  lemma QueuePoll(q: seq<Shape>, left: int -> int, right: int -> int, key: int -> int)
    requires q != [] && Frames(q, left, right, key)
    ensures q[0].Node? && IdsOf(q) == [q[0].id] + IdsOf(q[1..])
    ensures key(q[0].id) == q[0].key
    ensures left(q[0].id) == RootOf(q[0].left) && (RootOf(q[0].left) == -1 <==> q[0].left.Empty?)
    ensures right(q[0].id) == RootOf(q[0].right) && (RootOf(q[0].right) == -1 <==> q[0].right.Empty?)
    ensures Frames(q[1..] + Kids(q[0]), left, right, key)
    ensures IdsOf(q[1..] + Kids(q[0])) == IdsOf(q[1..])
      + (if q[0].left.Empty? then [] else [q[0].left.id]) + (if q[0].right.Empty? then [] else [q[0].right.id])
  {
    var t := q[0];
    KidsFacts(t, left, right, key);
    FramesAppend(q[1..], Kids(t), left, right, key);
    IdsOfAppend(q[1..], Kids(t));
  }

  lemma QueuePollOrder(out: seq<int>, q: seq<Shape>, whole: seq<int>)
    requires q != [] && q[0].Node? && out + QueueOrder(q) == whole
    ensures (out + [q[0].key]) + QueueOrder(q[1..] + Kids(q[0])) == whole
  {
    var rest := QueueOrder(q[1..] + Kids(q[0]));
    assert QueueOrder(q) == [q[0].key] + rest;
    assert out + ([q[0].key] + rest) == (out + [q[0].key]) + rest;
  }

  /** Go `LevelOrder`: poll a node, emit it, offer its left and then its right child. */
  method LevelOrderWalk(root: int, left: int -> int, right: int -> int, key: int -> int, ghost t: Shape)
    returns (out: seq<int>)
    requires Links(t, left, right, key) && root == RootOf(t)
    ensures out == LevelOrder(t)
  {
    out := [];
    QueueOrderIsLevels([t]);
    if root == -1 {
      assert [t][1..] == [];
      return;
    }
    var nodes := [root];
    ghost var queue := [t];
    while nodes != []
      invariant nodes == IdsOf(queue)
      invariant Frames(queue, left, right, key)
      invariant out + QueueOrder(queue) == LevelOrder(t)
      decreases |LevelOrder(t)| - |out|
    {
      ghost var f := queue[0];
      QueuePoll(queue, left, right, key);
      QueuePollOrder(out, queue, LevelOrder(t));
      var current := nodes[0];
      nodes := nodes[1..];
      out := out + [key(current)];
      if left(current) != -1 {
        nodes := nodes + [left(current)];
      }
      if right(current) != -1 {
        nodes := nodes + [right(current)];
      }
      queue := queue[1..] + Kids(f);
    }
  }

  // Post-order. Go peeks at the top of the stack and decides what to do from
  // the node visited just before (`prev`): coming down from the parent, the
  // top's children still have to be walked (phase 0); coming up from its left
  // child, the right one does (phase 1); coming up from its right child, or
  // having found nothing to push, the top itself is due (phase 2).

  /** The stack nodes whose ids are `Distinct` and whose links the walk follows. */
  ghost predicate PostFrames(fs: seq<Shape>, left: int -> int, right: int -> int, key: int -> int) {
    fs != [] ==>
      fs[0].Node? && Distinct(fs[0]) && Links(fs[0], left, right, key)
      && PostFrames(fs[1..], left, right, key)
  }

  /** Each stack entry is a child of the entry below it. */
  ghost predicate OnPath(fs: seq<Shape>) {
    |fs| >= 2 ==> fs[1].Node? && (fs[0] == fs[1].left || fs[0] == fs[1].right) && OnPath(fs[1..])
  }

  /** How `prev` relates to the top `fs[0]` in each phase. */
  ghost predicate PhaseOk(fs: seq<Shape>, phase: int, prev: int) {
    && fs != [] && fs[0].Node?
    && (phase == 0 ==> if |fs| == 1 then prev == -1 else fs[1].Node? && prev == fs[1].id)
    && (phase == 1 ==> fs[0].left.Node? && prev == fs[0].left.id)
    && (phase == 2 ==> prev == fs[0].id || (fs[0].right.Node? && prev == fs[0].right.id))
    && 0 <= phase <= 2
  }

  /** What a stack node still contributes once its child `child` is done. */
  function Above(child: Shape, parent: Shape): seq<int> {
    if parent.Empty? then []
    else if child == parent.left then PostOrder(parent.right) + [parent.key]
    else [parent.key]
  }

  function PendingPost(fs: seq<Shape>): seq<int> {
    if |fs| <= 1 then [] else Above(fs[0], fs[1]) + PendingPost(fs[1..])
  }

  /** What the top of the stack still contributes, by phase. */
  function TopRest(c: Shape, phase: int): seq<int> {
    if c.Empty? then []
    else if phase == 0 then PostOrder(c)
    else if phase == 1 then PostOrder(c.right) + [c.key]
    else [c.key]
  }

  function RemainingPost(fs: seq<Shape>, phase: int): seq<int> {
    if fs == [] then [] else TopRest(fs[0], phase) + PendingPost(fs)
  }

  /** Turns of the loop from a freshly pushed node to its first emission. */
  function Descent(c: Shape): nat {
    if c.Empty? then 0
    else if c.left.Node? then 1 + Descent(c.left)
    else if c.right.Node? then 1 + Descent(c.right)
    else 1
  }

  function StepsToEmit(fs: seq<Shape>, phase: int): nat {
    if fs == [] then 0
    else if phase == 0 then Descent(fs[0])
    else if phase == 1 && fs[0].Node? then 1 + Descent(fs[0].right)
    else 0
  }

  ghost predicate PostInv(out: seq<int>, fs: seq<Shape>, phase: int, prev: int, whole: seq<int>,
                          left: int -> int, right: int -> int, key: int -> int) {
    && PostFrames(fs, left, right, key)
    && OnPath(fs)
    && (fs != [] ==> PhaseOk(fs, phase, prev))
    && out + RemainingPost(fs, phase) == whole
  }

  lemma RootInIds(x: Shape)
    ensures RootOf(x) == -1 || RootOf(x) in Ids(x)
  {
  }

  /** Go's two tests on `prev` tell the phases apart. */
  lemma PostTests(fs: seq<Shape>, phase: int, prev: int, left: int -> int, right: int -> int, key: int -> int)
    requires fs != [] && PostFrames(fs, left, right, key) && OnPath(fs) && PhaseOk(fs, phase, prev)
    ensures fs[0].Node? && IdsOf(fs) == [fs[0].id] + IdsOf(fs[1..])
    ensures key(fs[0].id) == fs[0].key
    ensures left(fs[0].id) == RootOf(fs[0].left) && (RootOf(fs[0].left) == -1 <==> fs[0].left.Empty?)
    ensures right(fs[0].id) == RootOf(fs[0].right) && (RootOf(fs[0].right) == -1 <==> fs[0].right.Empty?)
    ensures (prev == -1 || left(prev) == fs[0].id || right(prev) == fs[0].id) <==> phase == 0
    ensures phase != 0 ==> (left(fs[0].id) == prev <==> phase == 1)
  {
    var c := fs[0];
    assert Links(c.left, left, right, key) && Links(c.right, left, right, key);
    RootInIds(c.left);
    RootInIds(c.right);
    if phase == 0 {
      if |fs| >= 2 {
        assert PostFrames(fs[1..], left, right, key);
        assert Links(fs[1], left, right, key);
      }
    } else if phase == 1 {
      RootInIds(c.left.left);
      RootInIds(c.left.right);
    } else if prev != c.id {
      RootInIds(c.right.left);
      RootInIds(c.right.right);
      assert c.right.id in Ids(c.right);
    }
  }

  lemma PostPushRest(fs: seq<Shape>, phase: int, x: Shape)
    requires fs != [] && fs[0].Node? && x.Node?
    requires || (phase == 0 && (x == fs[0].left || (fs[0].left.Empty? && x == fs[0].right)))
             || (phase == 1 && x == fs[0].right && x != fs[0].left)
    ensures RemainingPost([x] + fs, 0) == RemainingPost(fs, phase)
  {
    var c := fs[0];
    assert ([x] + fs)[0] == x && ([x] + fs)[1] == c && ([x] + fs)[1..] == fs;
    assert PendingPost([x] + fs) == Above(x, c) + PendingPost(fs);
    if phase == 0 && x == c.left {
      assert TopRest(c, phase) == PostOrder(x) + (PostOrder(c.right) + [c.key]);
    } else if phase == 0 {
      assert PostOrder(c.left) == [];
      assert TopRest(c, phase) == PostOrder(x) + [c.key];
    }
    assert TopRest(c, phase) == PostOrder(x) + Above(x, c);
  }

  lemma PostPush(out: seq<int>, fs: seq<Shape>, phase: int, prev: int, x: Shape, whole: seq<int>,
                 left: int -> int, right: int -> int, key: int -> int)
    requires fs != [] && PostInv(out, fs, phase, prev, whole, left, right, key)
    requires x.Node?
    requires || (phase == 0 && (x == fs[0].left || (fs[0].left.Empty? && x == fs[0].right)))
             || (phase == 1 && x == fs[0].right)
    ensures PostInv(out, [x] + fs, 0, fs[0].id, whole, left, right, key)
    ensures IdsOf([x] + fs) == [x.id] + IdsOf(fs)
    ensures StepsToEmit([x] + fs, 0) < StepsToEmit(fs, phase)
  {
    var c := fs[0];
    assert ([x] + fs)[0] == x && ([x] + fs)[1..] == fs;
    if phase == 1 {
      assert c.left.id in Ids(c.left);
    }
    PostPushRest(fs, phase, x);
  }

  lemma PostSettle(out: seq<int>, fs: seq<Shape>, phase: int, prev: int, whole: seq<int>,
                   left: int -> int, right: int -> int, key: int -> int)
    requires fs != [] && PostInv(out, fs, phase, prev, whole, left, right, key)
    requires || (phase == 0 && fs[0].left.Empty? && fs[0].right.Empty?)
             || (phase == 1 && fs[0].right.Empty?)
    ensures PostInv(out, fs, 2, fs[0].id, whole, left, right, key)
    ensures StepsToEmit(fs, 2) < StepsToEmit(fs, phase)
  {
    var c := fs[0];
    assert PostOrder(c.right) == [];
    assert TopRest(c, phase) == [c.key];
  }

  lemma PostEmit(out: seq<int>, fs: seq<Shape>, prev: int, whole: seq<int>,
                 left: int -> int, right: int -> int, key: int -> int)
    returns (phase': int)
    requires fs != [] && PostInv(out, fs, 2, prev, whole, left, right, key)
    ensures PostInv(out + [fs[0].key], fs[1..], phase', fs[0].id, whole, left, right, key)
    ensures |out| < |whole|
  {
    var c := fs[0];
    if |fs| == 1 {
      phase' := 2;
      assert RemainingPost(fs, 2) == [c.key];
    } else {
      var p := fs[1];
      assert PostFrames(fs[1..], left, right, key);
      phase' := if c == p.left then 1 else 2;
      ghost var rest := PendingPost(fs[1..]);
      assert PendingPost(fs) == Above(c, p) + rest;
      assert TopRest(p, phase') == Above(c, p);
      assert RemainingPost(fs[1..], phase') == Above(c, p) + rest;
      assert RemainingPost(fs, 2) == [c.key] + (Above(c, p) + rest);
    }
  }

  /** Go `PostOrder`: peek at the top; push its first child after coming down,
      its right child after coming up from the left, and otherwise emit and pop it. */
  method PostOrderWalk(root: int, left: int -> int, right: int -> int, key: int -> int, ghost t: Shape)
    returns (out: seq<int>)
    requires Walkable(t, left, right, key) && root == RootOf(t)
    ensures out == PostOrder(t)
  {
    out := [];
    if root == -1 {
      return;
    }
    var nodes := [root];
    var prev := -1;
    ghost var frames := [t];
    ghost var phase := 0;
    assert [t][1..] == [];
    while nodes != []
      invariant nodes == IdsOf(frames)
      invariant PostInv(out, frames, phase, prev, PostOrder(t), left, right, key)
      invariant |out| <= |PostOrder(t)|
      decreases |PostOrder(t)| - |out|, StepsToEmit(frames, phase)
    {
      var current := nodes[0];
      PostTests(frames, phase, prev, left, right, key);
      ghost var c := frames[0];
      if prev == -1 || left(prev) == current || right(prev) == current {
        if left(current) != -1 {
          nodes := [left(current)] + nodes;
          PostPush(out, frames, phase, prev, c.left, PostOrder(t), left, right, key);
          frames, phase := [c.left] + frames, 0;
        } else if right(current) != -1 {
          nodes := [right(current)] + nodes;
          PostPush(out, frames, phase, prev, c.right, PostOrder(t), left, right, key);
          frames, phase := [c.right] + frames, 0;
        } else {
          PostSettle(out, frames, phase, prev, PostOrder(t), left, right, key);
          phase := 2;
        }
      } else if left(current) == prev {
        if right(current) != -1 {
          nodes := [right(current)] + nodes;
          PostPush(out, frames, phase, prev, c.right, PostOrder(t), left, right, key);
          frames, phase := [c.right] + frames, 0;
        } else {
          PostSettle(out, frames, phase, prev, PostOrder(t), left, right, key);
          phase := 2;
        }
      } else {
        phase := PostEmit(out, frames, prev, PostOrder(t), left, right, key);
        out := out + [key(current)];
        nodes := nodes[1..];
        frames := frames[1..];
      }
      prev := current;
    }
  }
}
