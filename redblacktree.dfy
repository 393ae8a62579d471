/** The Go red-black tree over an arena. Go's heap nodes live in `nodes`,
    indexed by int with -1 for `nil`; each carries its element, its children,
    its parent and its colour. The ghost `tree` is the coloured tree the
    reachable nodes form, and the ghost zippers of `RedBlack` name the node
    each rebalancing step works on. A deleted node's cell stays in the arena,
    unreachable. */
module RedBlackTree {
  import opened Wrappers
  import opened RedBlack
  import Traversal
  import SearchTree

  /** Go's `node`: element, children, parent, colour. */
  datatype Cell = Cell(elem: int, left: int, right: int, parent: int, red: bool)

  function LeftOf(nodes: seq<Cell>): int -> int {
    (i: int) => if 0 <= i < |nodes| then nodes[i].left else -1
  }

  function RightOf(nodes: seq<Cell>): int -> int {
    (i: int) => if 0 <= i < |nodes| then nodes[i].right else -1
  }

  function ElemOf(nodes: seq<Cell>): int -> int {
    (i: int) => if 0 <= i < |nodes| then nodes[i].elem else 0
  }

  // The pointer reads of the Go code, with -1 for nil.

  /** Go `isRed`: nil counts as black. */
  function IsRedAt(nodes: seq<Cell>, n: int): bool {
    0 <= n < |nodes| && nodes[n].red
  }

  function ParentAt(nodes: seq<Cell>, n: int): int {
    if 0 <= n < |nodes| then nodes[n].parent else -1
  }

  /** Go `sibling`: the parent's other child, nil at the root. */
  function SiblingAt(nodes: seq<Cell>, n: int): int {
    var p := ParentAt(nodes, n);
    if !(0 <= p < |nodes|) then -1
    else if nodes[p].left == n then nodes[p].right
    else nodes[p].left
  }

  /** Go `grandparent`. */
  function GrandparentAt(nodes: seq<Cell>, n: int): int {
    var p := ParentAt(nodes, n);
    if !(0 <= p < |nodes|) then -1 else ParentAt(nodes, p)
  }

  /** Go `uncle`: the parent's sibling. */
  function UncleAt(nodes: seq<Cell>, n: int): int {
    var p := ParentAt(nodes, n);
    if !(0 <= p < |nodes|) then -1 else SiblingAt(nodes, p)
  }

  /** The arena holds tree `t` hanging from parent `p`: each node's cell
      carries its key, its children's ids, its parent's id and its colour. */
  ghost predicate Hangs(t: Tree, p: int, nodes: seq<Cell>) {
    t.Branch? ==>
      && 0 <= t.id < |nodes|
      && nodes[t.id] == Cell(t.key, Id(t.left), Id(t.right), p, t.red)
      && Hangs(t.left, t.id, nodes) && Hangs(t.right, t.id, nodes)
  }

  /** The cell of the frame of `c`, with `hole` in the hole's slot. */
  function FrameCell(c: Ctx, hole: int): Cell
    requires !c.Top?
  {
    if c.InLeft? then Cell(c.key, hole, Id(c.right), ParentId(c.up), c.red)
    else Cell(c.key, Id(c.left), hole, ParentId(c.up), c.red)
  }

  /** The arena holds the context `c` around a hole whose root is `hole`. */
  ghost predicate CtxHangs(c: Ctx, hole: int, nodes: seq<Cell>)
    decreases c
  {
    !c.Top? ==>
      && 0 <= c.id < |nodes| && nodes[c.id] == FrameCell(c, hole)
      && Hangs(Sib(c), c.id, nodes) && CtxHangs(c.up, c.id, nodes)
  }

  lemma {:induction false} PlugHangs(c: Ctx, s: Tree, nodes: seq<Cell>)
    ensures Hangs(Plug(c, s), -1, nodes) <==> CtxHangs(c, Id(s), nodes) && Hangs(s, ParentId(c), nodes)
    decreases c
  {
    if !c.Top? {
      PlugHangs(c.up, Up(c, s), nodes);
    }
  }

  lemma {:induction false} HangsIds(t: Tree, p: int, nodes: seq<Cell>)
    requires Hangs(t, p, nodes)
    ensures forall i :: i in Ids(t) ==> 0 <= i < |nodes|
  {
    if t.Branch? {
      Unfold(t);
      HangsIds(t.left, t.id, nodes);
      HangsIds(t.right, t.id, nodes);
    }
  }

  lemma {:induction false} CtxHangsIds(c: Ctx, hole: int, nodes: seq<Cell>)
    requires CtxHangs(c, hole, nodes)
    ensures forall i :: i in CtxIds(c) ==> 0 <= i < |nodes|
    decreases c
  {
    if !c.Top? {
      HangsIds(Sib(c), c.id, nodes);
      CtxHangsIds(c.up, c.id, nodes);
    }
  }

  /** A hanging tree stays hanging when the cells of its own nodes are kept. */
  lemma {:induction false} HangsFrame(t: Tree, p: int, a: seq<Cell>, b: seq<Cell>)
    requires Hangs(t, p, a) && |a| <= |b|
    requires forall i :: i in Ids(t) && 0 <= i < |a| ==> b[i] == a[i]
    ensures Hangs(t, p, b)
  {
    if t.Branch? {
      Unfold(t);
      HangsFrame(t.left, t.id, a, b);
      HangsFrame(t.right, t.id, a, b);
    }
  }

  lemma {:induction false} CtxHangsFrame(c: Ctx, hole: int, a: seq<Cell>, b: seq<Cell>)
    requires CtxHangs(c, hole, a) && |a| <= |b|
    requires forall i :: i in CtxIds(c) && 0 <= i < |a| ==> b[i] == a[i]
    ensures CtxHangs(c, hole, b)
    decreases c
  {
    if !c.Top? {
      HangsFrame(Sib(c), c.id, a, b);
      CtxHangsFrame(c.up, c.id, a, b);
    }
  }

  /** Rewriting the element and colour of the node at the hole. */
  lemma Retop(c: Ctx, s: Tree, k: int, r: bool, a: seq<Cell>)
    requires Hangs(Plug(c, s), -1, a) && Unique(Plug(c, s)) && s.Branch?
    ensures 0 <= s.id < |a|
    ensures Hangs(Plug(c, s.(key := k, red := r)), -1, a[s.id := a[s.id].(elem := k, red := r)])
  {
    PlugHangs(c, s, a);
    var b := a[s.id := a[s.id].(elem := k, red := r)];
    PlugUnique(c, s);
    Unfold(s);
    HangsFrame(s.left, s.id, a, b);
    HangsFrame(s.right, s.id, a, b);
    CtxHangsFrame(c, s.id, a, b);
    PlugHangs(c, s.(key := k, red := r), b);
  }

  /** What the pointer reads of the Go code see around the node at the hole. */
  lemma Family(c: Ctx, s: Tree, nodes: seq<Cell>)
    requires Hangs(Plug(c, s), -1, nodes) && Unique(Plug(c, s)) && s.Branch?
    ensures 0 <= s.id < |nodes| && nodes[s.id] == Cell(s.key, Id(s.left), Id(s.right), ParentId(c), s.red)
    ensures Hangs(s, ParentId(c), nodes) && CtxHangs(c, s.id, nodes)
    ensures (nodes[s.id].left == -1 <==> s.left.Leaf?) && (nodes[s.id].right == -1 <==> s.right.Leaf?)
    ensures IsRedAt(nodes, ParentId(c)) == (!c.Top? && c.red)
    ensures !c.Top? ==> (nodes[c.id].left == s.id <==> c.InLeft?) && (nodes[c.id].right == s.id <==> c.InRight?)
    ensures !c.Top? ==> SiblingAt(nodes, s.id) == Id(Sib(c)) && Hangs(Sib(c), c.id, nodes)
    ensures GrandparentAt(nodes, s.id) == (if c.Top? then -1 else ParentId(c.up))
    ensures !c.Top? && !c.up.Top? ==>
      && 0 <= c.up.id < |nodes| && nodes[c.up.id] == FrameCell(c.up, c.id) && UncleAt(nodes, s.id) == Id(Sib(c.up))
      && Hangs(Sib(c.up), c.up.id, nodes)
      && (nodes[c.up.id].left == c.id <==> c.up.InLeft?) && (nodes[c.up.id].right == c.id <==> c.up.InRight?)
  {
    PlugHangs(c, s, nodes);
    PlugUnique(c, s);
    Unfold(s);
    assert Hangs(s.left, s.id, nodes) && Hangs(s.right, s.id, nodes);
    if !c.Top? {
      assert s.id !in Ids(Sib(c));
      if !c.up.Top? {
        assert CtxIds(c.up) !! Ids(s) && c.id in CtxIds(c.up) + {c.id};
        PlugUnique(c.up, Up(c, s));
        assert c.id !in CtxIds(c.up);
        assert c.id !in Ids(Sib(c.up)) by {
          assert Ids(Sib(c.up)) <= CtxIds(c.up);
        }
      }
    }
  }

  /** Go `sibling`, `uncle` and `grandparent` give nil at the root, and `uncle`
      and `grandparent` also give nil just below it. */
  lemma Orphan(c: Ctx, s: Tree, nodes: seq<Cell>)
    requires Hangs(Plug(c, s), -1, nodes) && Unique(Plug(c, s)) && s.Branch?
    ensures c.Top? ==> SiblingAt(nodes, s.id) == -1 && UncleAt(nodes, s.id) == -1 && GrandparentAt(nodes, s.id) == -1
    ensures !c.Top? && c.up.Top? ==> UncleAt(nodes, s.id) == -1 && GrandparentAt(nodes, s.id) == -1
  {
    Family(c, s, nodes);
  }

  /** What the arena says about any hanging tree's root. */
  lemma HangsRoot(t: Tree, p: int, nodes: seq<Cell>)
    requires Hangs(t, p, nodes)
    ensures IsRedAt(nodes, Id(t)) == IsRed(t)
    ensures t.Branch? ==> nodes[t.id].left == Id(t.left) && nodes[t.id].right == Id(t.right)
    ensures t.Branch? ==> IsRedAt(nodes, Id(t.left)) == IsRed(t.left) && IsRedAt(nodes, Id(t.right)) == IsRed(t.right)
  {
    if t.Branch? {
      assert Hangs(t.left, t.id, nodes) && Hangs(t.right, t.id, nodes);
    }
  }

  /** Go `replaceNode(was, now)`: the parent of `was` (or the root) now points
      to `now`, and `now` takes over the parent of `was`. */
  function Replaced(a: seq<Cell>, was: int, now: int): seq<Cell>
    requires 0 <= was < |a| && -1 <= now < |a|
    requires a[was].parent == -1 || 0 <= a[was].parent < |a|
  {
    var p := a[was].parent;
    var a1 :=
      if p == -1 then a
      else if a[p].left == was then a[p := a[p].(left := now)]
      else a[p := a[p].(right := now)];
    if now == -1 then a1 else a1[now := a1[now].(parent := p)]
  }

  /** `b` differs from `a` only at the ids in `w`. */
  ghost predicate Rewrites(a: seq<Cell>, b: seq<Cell>, w: set<int>) {
    |a| <= |b| && forall i :: 0 <= i < |a| && i !in w ==> b[i] == a[i]
  }

  ghost predicate At(b: seq<Cell>, i: int, cell: Cell) {
    0 <= i < |b| && b[i] == cell
  }

  lemma Kept(t: Tree, p: int, a: seq<Cell>, b: seq<Cell>, w: set<int>)
    requires Hangs(t, p, a) && Rewrites(a, b, w) && Ids(t) !! w
    ensures Hangs(t, p, b)
  {
    HangsFrame(t, p, a, b);
  }

  lemma CtxKept(c: Ctx, hole: int, a: seq<Cell>, b: seq<Cell>, w: set<int>)
    requires CtxHangs(c, hole, a) && Rewrites(a, b, w) && CtxIds(c) !! w
    ensures CtxHangs(c, hole, b)
  {
    CtxHangsFrame(c, hole, a, b);
  }

  /** A frame whose hole now holds `hole'`. */
  lemma CtxRelinked(c: Ctx, hole: int, hole': int, a: seq<Cell>, b: seq<Cell>, w: set<int>)
    requires CtxHangs(c, hole, a) && Rewrites(a, b, w)
    requires !c.Top? ==> At(b, c.id, FrameCell(c, hole')) && CtxIds(c.up) !! w && Ids(Sib(c)) !! w
    ensures CtxHangs(c, hole', b)
  {
    if !c.Top? {
      assert CtxIds(c) == CtxIds(c.up) + {c.id} + Ids(Sib(c));
      Kept(Sib(c), c.id, a, b, w);
      CtxKept(c.up, c.id, a, b, w);
    }
  }

  /** Below the root, the tree's root does not depend on what fills the hole. */
  lemma {:induction false} PlugRoot(c: Ctx, s: Tree, t: Tree)
    ensures Id(Plug(c, s)) == (if c.Top? then Id(s) else Id(Plug(c, t)))
    decreases c
  {
    if !c.Top? && !c.up.Top? {
      PlugRoot(c.up, Up(c, s), Up(c, t));
    }
  }

  /** The frame of a hole in a tree with unique ids. */
  lemma FrameUnique(c: Ctx, s: Tree)
    requires Unique(Plug(c, s)) && !c.Top?
    ensures c.id !in CtxIds(c.up) && c.id !in Ids(Sib(c)) && c.id !in Ids(s)
    ensures CtxIds(c.up) !! Ids(Sib(c)) && CtxIds(c.up) !! Ids(s) && Ids(Sib(c)) !! Ids(s)
  {
    PlugUnique(c.up, Up(c, s));
    Unfold(Up(c, s));
  }

  /** A subtree whose root now hangs from `p'`. */
  lemma Reparented(t: Tree, p: int, p': int, a: seq<Cell>, b: seq<Cell>, w: set<int>)
    requires Hangs(t, p, a) && Rewrites(a, b, w) && Unique(t)
    requires t.Branch? ==> At(b, t.id, a[t.id].(parent := p')) && (Ids(t) - {t.id}) !! w
    ensures Hangs(t, p', b)
  {
    if t.Branch? {
      Unfold(t);
      Kept(t.left, t.id, a, b, w);
      Kept(t.right, t.id, a, b, w);
    }
  }

  /** rotateLeft on a subtree hanging from `p`: the cells it rewrites, given
      the arena `a` before, make `b` hold the rotated subtree. */
  lemma LeftRotatedSub(s: Tree, p: int, a: seq<Cell>, b: seq<Cell>)
    requires Hangs(s, p, a) && Unique(s) && s.Branch? && s.right.Branch? && p !in Ids(s)
    requires Rewrites(a, b, {s.id, s.right.id, Id(s.right.left), p})
    requires At(b, s.id, Cell(s.key, Id(s.left), Id(s.right.left), s.right.id, s.red))
    requires At(b, s.right.id, Cell(s.right.key, s.id, Id(s.right.right), p, s.right.red))
    requires s.right.left.Branch? ==> 0 <= s.right.left.id < |a| && At(b, s.right.left.id, a[s.right.left.id].(parent := s.id))
    ensures Hangs(LeftRotated(s), p, b)
  {
    var u := s.right;
    var x, y, z := s.left, u.left, u.right;
    var w := {s.id, u.id, Id(y), p};
    HangsIds(s, p, a);
    Unfold(s);
    Unfold(u);
    assert Unique(u) && Unique(y);
    Kept(x, s.id, a, b, w);
    Kept(z, u.id, a, b, w);
    if y.Branch? {
      Unfold(y);
    }
    Reparented(y, u.id, s.id, a, b, w);
    assert Hangs(LeftRotated(s).left, u.id, b);
  }

  /** rotateRight on a subtree hanging from `p`, the mirror image. */
  lemma RightRotatedSub(s: Tree, p: int, a: seq<Cell>, b: seq<Cell>)
    requires Hangs(s, p, a) && Unique(s) && s.Branch? && s.left.Branch? && p !in Ids(s)
    requires Rewrites(a, b, {s.id, s.left.id, Id(s.left.right), p})
    requires At(b, s.id, Cell(s.key, Id(s.left.right), Id(s.right), s.left.id, s.red))
    requires At(b, s.left.id, Cell(s.left.key, Id(s.left.left), s.id, p, s.left.red))
    requires s.left.right.Branch? ==> 0 <= s.left.right.id < |a| && At(b, s.left.right.id, a[s.left.right.id].(parent := s.id))
    ensures Hangs(RightRotated(s), p, b)
  {
    var u := s.left;
    var x, y, z := u.left, u.right, s.right;
    var w := {s.id, u.id, Id(y), p};
    HangsIds(s, p, a);
    Unfold(s);
    Unfold(u);
    assert Unique(u) && Unique(y);
    Kept(x, u.id, a, b, w);
    Kept(z, s.id, a, b, w);
    if y.Branch? {
      Unfold(y);
    }
    Reparented(y, u.id, s.id, a, b, w);
    assert Hangs(RightRotated(s).right, u.id, b);
  }

  /** A rotation at the root of the hole, as far as the context is concerned. */
  lemma RotatedHangs(c: Ctx, s: Tree, r: Tree, a: seq<Cell>, b: seq<Cell>)
    requires Hangs(Plug(c, s), -1, a) && Unique(Plug(c, s)) && s.Branch? && r.Branch?
    requires Ids(r) == Ids(s) && Hangs(r, ParentId(c), b)
    requires Rewrites(a, b, Ids(s) + {ParentId(c)})
    requires !c.Top? ==> At(b, c.id, FrameCell(c, r.id))
    ensures Hangs(Plug(c, r), -1, b)
  {
    PlugHangs(c, s, a);
    PlugUnique(c, s);
    if !c.Top? {
      FrameUnique(c, s);
    }
    CtxRelinked(c, s.id, r.id, a, b, Ids(s) + {ParentId(c)});
    PlugHangs(c, r, b);
  }

  /** Go `rotateLeft(n)`, statement by statement, on the arena. */
  function LeftRotation(a: seq<Cell>, n: int): seq<Cell>
    requires 0 <= n < |a| && 0 <= a[n].right < |a| && a[n].right != n
    requires a[n].parent == -1 || 0 <= a[n].parent < |a|
    requires -1 <= a[a[n].right].left < |a|
  {
    var r := a[n].right;
    var a1 := Replaced(a, n, r);
    var a2 := a1[n := a1[n].(right := a1[r].left)];
    var y := a2[r].left;
    var a3 := if y != -1 then a2[y := a2[y].(parent := n)] else a2;
    var a4 := a3[r := a3[r].(left := n)];
    a4[n := a4[n].(parent := r)]
  }

  /** Go `rotateRight(n)`, statement by statement, on the arena. */
  function RightRotation(a: seq<Cell>, n: int): seq<Cell>
    requires 0 <= n < |a| && 0 <= a[n].left < |a| && a[n].left != n
    requires a[n].parent == -1 || 0 <= a[n].parent < |a|
    requires -1 <= a[a[n].left].right < |a|
  {
    var l := a[n].left;
    var a1 := Replaced(a, n, l);
    var a2 := a1[n := a1[n].(left := a1[l].right)];
    var y := a2[l].right;
    var a3 := if y != -1 then a2[y := a2[y].(parent := n)] else a2;
    var a4 := a3[l := a3[l].(right := n)];
    a4[n := a4[n].(parent := l)]
  }

  /** The cells rotateLeft rewrites, for distinct n, its right child r, r's
      left child y and n's parent p. */
  lemma LeftRotationCells(a: seq<Cell>, n: int)
    requires 0 <= n < |a| && 0 <= a[n].right < |a| && a[n].right != n
    requires a[n].parent == -1 || 0 <= a[n].parent < |a|
    requires -1 <= a[a[n].right].left < |a|
    requires a[a[n].right].left !in {n, a[n].right}
    requires a[n].parent != -1 ==> a[n].parent !in {n, a[n].right, a[a[n].right].left}
    requires a[n].parent != -1 ==> a[a[n].parent].left == n || a[a[n].parent].right == n
    ensures var b, r, p := LeftRotation(a, n), a[n].right, a[n].parent; var y := a[r].left;
      && Rewrites(a, b, {n, r, y, p})
      && b[n] == a[n].(right := y, parent := r)
      && b[r] == a[r].(left := n, parent := p)
      && (y != -1 ==> b[y] == a[y].(parent := n))
      && (p != -1 ==> b[p] == if a[p].left == n then a[p].(left := r) else a[p].(right := r))
  {
  }

  /** The cells rotateRight rewrites. */
  lemma RightRotationCells(a: seq<Cell>, n: int)
    requires 0 <= n < |a| && 0 <= a[n].left < |a| && a[n].left != n
    requires a[n].parent == -1 || 0 <= a[n].parent < |a|
    requires -1 <= a[a[n].left].right < |a|
    requires a[a[n].left].right !in {n, a[n].left}
    requires a[n].parent != -1 ==> a[n].parent !in {n, a[n].left, a[a[n].left].right}
    requires a[n].parent != -1 ==> a[a[n].parent].left == n || a[a[n].parent].right == n
    ensures var b, l, p := RightRotation(a, n), a[n].left, a[n].parent; var y := a[l].right;
      && Rewrites(a, b, {n, l, y, p})
      && b[n] == a[n].(left := y, parent := l)
      && b[l] == a[l].(right := n, parent := p)
      && (y != -1 ==> b[y] == a[y].(parent := n))
      && (p != -1 ==> b[p] == if a[p].left == n then a[p].(left := l) else a[p].(right := l))
  {
  }

  /** The cells of the node at the hole and of its parent. */
  lemma HoleCells(c: Ctx, s: Tree, a: seq<Cell>)
    requires Hangs(Plug(c, s), -1, a) && Unique(Plug(c, s)) && s.Branch?
    ensures Hangs(s, ParentId(c), a) && Unique(s) && ParentId(c) !in Ids(s)
    ensures 0 <= s.id < |a| && a[s.id] == Cell(s.key, Id(s.left), Id(s.right), ParentId(c), s.red)
    ensures ParentId(c) == -1 || 0 <= ParentId(c) < |a|
    ensures !c.Top? ==> && ParentId(c) == c.id && 0 <= c.id < |a| && a[c.id] == FrameCell(c, s.id)
                        && (c.InLeft? <==> a[c.id].left == s.id)
  {
    PlugHangs(c, s, a);
    PlugUnique(c, s);
    HangsIds(s, ParentId(c), a);
    if !c.Top? {
      FrameUnique(c, s);
      assert a[c.id] == FrameCell(c, s.id);
      assert s.id in Ids(s);
      if c.InRight? && c.left.Branch? {
        assert c.left.id in Ids(Sib(c));
      }
    }
  }

  /** Go `replaceNode(n, child)` on a node with at most one child takes the
      node out: the child hangs where the node hung. */
  lemma Spliced(c: Ctx, s: Tree, a: seq<Cell>)
    requires Hangs(Plug(c, s), -1, a) && Unique(Plug(c, s)) && s.Branch? && (s.left.Leaf? || s.right.Leaf?)
    ensures 0 <= s.id < |a| && -1 <= Id(Child(s)) < |a|
    ensures a[s.id].parent == ParentId(c) && (ParentId(c) == -1 || 0 <= ParentId(c) < |a|)
    ensures a[s.id].left == Id(s.left) && a[s.id].right == Id(s.right)
    ensures Hangs(Plug(c, Child(s)), -1, Replaced(a, s.id, Id(Child(s)))) && Unique(Plug(c, Child(s)))
  {
    var ch := Child(s);
    var p := ParentId(c);
    HoleCells(c, s, a);
    PlugHangs(c, s, a);
    PlugUnique(c, s);
    HangsIds(s, p, a);
    Unfold(s);
    assert Hangs(ch, s.id, a) && Ids(ch) <= Ids(s) && Unique(ch);
    var b := Replaced(a, s.id, Id(ch));
    var w := {p, Id(ch)};
    assert Rewrites(a, b, w);
    Reparented(ch, s.id, p, a, b, w);
    if !c.Top? {
      FrameUnique(c, s);
      CtxHangsIds(c, s.id, a);
      assert CtxIds(c) == CtxIds(c.up) + {c.id} + Ids(Sib(c));
      assert -1 !in CtxIds(c);
      assert CtxIds(c.up) !! w && Ids(Sib(c)) !! w;
      assert At(b, c.id, FrameCell(c, Id(ch)));
    }
    CtxRelinked(c, s.id, Id(ch), a, b, w);
    PlugHangs(c, ch, b);
    PlugDistinct(c, s, ch);
  }

  /** The cells leftRotation reads when it turns the node at the hole with its right child. */
  lemma LeftRotationShape(c: Ctx, s: Tree, a: seq<Cell>)
    requires Hangs(Plug(c, s), -1, a) && Unique(Plug(c, s)) && s.Branch? && s.right.Branch?
    ensures 0 <= s.id < |a| && a[s.id].right == s.right.id && s.right.id != s.id && 0 <= s.right.id < |a|
    ensures a[s.id].parent == ParentId(c) && (ParentId(c) == -1 || 0 <= ParentId(c) < |a|)
    ensures a[s.right.id].left == Id(s.right.left) && -1 <= Id(s.right.left) < |a|
    ensures a[s.id] == Cell(s.key, Id(s.left), Id(s.right), ParentId(c), s.red)
    ensures Hangs(s, ParentId(c), a) && Unique(s) && ParentId(c) !in Ids(s) && Ids(s.right.left) <= Ids(s)
    ensures a[s.right.id] == Cell(s.right.key, Id(s.right.left), Id(s.right.right), s.id, s.right.red)
    ensures Id(s.right.left) != s.id && Id(s.right.left) != s.right.id
    ensures s.right.left.Branch? ==> 0 <= s.right.left.id
    ensures !c.Top? ==> && ParentId(c) == c.id && 0 <= c.id < |a| && a[c.id] == FrameCell(c, s.id)
                        && (c.InLeft? <==> a[c.id].left == s.id)
                        && c.id != s.id && c.id != s.right.id && c.id != Id(s.right.left)
  {
    var u := s.right;
    HoleCells(c, s, a);
    HangsIds(s, ParentId(c), a);
    Unfold(s);
    Unfold(u);
    assert Unique(u);
    assert Hangs(u, s.id, a);
  }

  /** rotateLeft at the root of the hole turns the tree held into Plug(c, LeftRotated(s)). */
  lemma LeftRotationHangs(c: Ctx, s: Tree, a: seq<Cell>)
    requires Hangs(Plug(c, s), -1, a) && Unique(Plug(c, s)) && s.Branch? && s.right.Branch?
    ensures 0 <= s.id < |a| && a[s.id].right == s.right.id && s.right.id != s.id && 0 <= s.right.id < |a|
    ensures a[s.id].parent == ParentId(c) && (ParentId(c) == -1 || 0 <= ParentId(c) < |a|)
    ensures a[s.right.id].left == Id(s.right.left) && -1 <= Id(s.right.left) < |a|
    ensures Hangs(Plug(c, LeftRotated(s)), -1, LeftRotation(a, s.id))
  {
    LeftRotationShape(c, s, a);
    LeftRotationCells(a, s.id);
    var b := LeftRotation(a, s.id);
    var u, p := s.right, ParentId(c);
    assert Rewrites(a, b, {s.id, u.id, Id(u.left), p});
    assert At(b, s.id, a[s.id].(right := Id(u.left), parent := u.id));
    assert At(b, u.id, a[u.id].(left := s.id, parent := p));
    assert u.left.Branch? ==> At(b, u.left.id, a[u.left.id].(parent := s.id));
    LeftRotatedSub(s, p, a, b);
    assert Rewrites(a, b, Ids(s) + {ParentId(c)});
    RotatedHangs(c, s, LeftRotated(s), a, b);
  }

  /** The cells rightRotation reads when it turns the node at the hole with its left child. */
  lemma RightRotationShape(c: Ctx, s: Tree, a: seq<Cell>)
    requires Hangs(Plug(c, s), -1, a) && Unique(Plug(c, s)) && s.Branch? && s.left.Branch?
    ensures 0 <= s.id < |a| && a[s.id].left == s.left.id && s.left.id != s.id && 0 <= s.left.id < |a|
    ensures a[s.id].parent == ParentId(c) && (ParentId(c) == -1 || 0 <= ParentId(c) < |a|)
    ensures a[s.left.id].right == Id(s.left.right) && -1 <= Id(s.left.right) < |a|
    ensures a[s.id] == Cell(s.key, Id(s.left), Id(s.right), ParentId(c), s.red)
    ensures Hangs(s, ParentId(c), a) && Unique(s) && ParentId(c) !in Ids(s) && Ids(s.left.right) <= Ids(s)
    ensures a[s.left.id] == Cell(s.left.key, Id(s.left.left), Id(s.left.right), s.id, s.left.red)
    ensures Id(s.left.right) != s.id && Id(s.left.right) != s.left.id
    ensures s.left.right.Branch? ==> 0 <= s.left.right.id
    ensures !c.Top? ==> && ParentId(c) == c.id && 0 <= c.id < |a| && a[c.id] == FrameCell(c, s.id)
                        && (c.InLeft? <==> a[c.id].left == s.id)
                        && c.id != s.id && c.id != s.left.id && c.id != Id(s.left.right)
  {
    var u := s.left;
    HoleCells(c, s, a);
    HangsIds(s, ParentId(c), a);
    Unfold(s);
    Unfold(u);
    assert Unique(u);
    assert Hangs(u, s.id, a);
  }

  /** rotateRight at the root of the hole turns the tree held into Plug(c, RightRotated(s)). */
  lemma RightRotationHangs(c: Ctx, s: Tree, a: seq<Cell>)
    requires Hangs(Plug(c, s), -1, a) && Unique(Plug(c, s)) && s.Branch? && s.left.Branch?
    ensures 0 <= s.id < |a| && a[s.id].left == s.left.id && s.left.id != s.id && 0 <= s.left.id < |a|
    ensures a[s.id].parent == ParentId(c) && (ParentId(c) == -1 || 0 <= ParentId(c) < |a|)
    ensures a[s.left.id].right == Id(s.left.right) && -1 <= Id(s.left.right) < |a|
    ensures Hangs(Plug(c, RightRotated(s)), -1, RightRotation(a, s.id))
  {
    RightRotationShape(c, s, a);
    RightRotationCells(a, s.id);
    var b := RightRotation(a, s.id);
    var u, p := s.left, ParentId(c);
    assert Rewrites(a, b, {s.id, u.id, Id(u.right), p});
    assert At(b, s.id, a[s.id].(left := Id(u.right), parent := u.id));
    assert At(b, u.id, a[u.id].(right := s.id, parent := p));
    assert u.right.Branch? ==> At(b, u.right.id, a[u.right.id].(parent := s.id));
    RightRotatedSub(s, p, a, b);
    assert Rewrites(a, b, Ids(s) + {ParentId(c)});
    RotatedHangs(c, s, RightRotated(s), a, b);
  }

  // Sequence facts behind insert and delete.

  lemma IncreasingInsert(a: seq<int>, x: int, b: seq<int>)
    requires SearchTree.Increasing(a + b)
    requires forall k :: k in a ==> k < x
    requires forall k :: k in b ==> x < k
    ensures SearchTree.Increasing(a + [x] + b)
  {
    assert forall i :: 0 <= i < |a| ==> (a + b)[i] == a[i];
    assert forall i :: 0 <= i < |b| ==> (a + b)[|a| + i] == b[i];
    SearchTree.IncreasingConcat(a, x, b);
  }

  lemma IncreasingDrop(a: seq<int>, x: int, b: seq<int>)
    requires SearchTree.Increasing(a + [x] + b)
    ensures SearchTree.Increasing(a + b) && x !in a + b
    ensures forall k :: k in a + b <==> k in a + [x] + b && k != x
  {
    SearchTree.IncreasingConcat(a, x, b);
    var s := a + b;
    assert forall i :: 0 <= i < |a| ==> s[i] == a[i];
    assert forall i :: 0 <= i < |b| ==> s[|a| + i] == b[i];
    forall i, j | 0 <= i < j < |s|
      ensures s[i] < s[j]
    {
      if j < |a| {
      } else if i < |a| {
        assert a[i] in a && b[j - |a|] in b;
      }
    }
  }

  // Insert on the arena.

  /** insert's new node, id |a| with element x, hung in the leaf slot of `c`. */
  lemma AttachedHangs(c: Ctx, x: int, a: seq<Cell>, b: seq<Cell>)
    requires !c.Top? && Hangs(Plug(c, Leaf), -1, a) && Unique(Plug(c, Leaf))
    requires Rewrites(a, b, {c.id})
    requires At(b, |a|, Cell(x, -1, -1, c.id, true)) && At(b, c.id, FrameCell(c, |a|))
    ensures Hangs(Plug(c, Branch(Leaf, |a|, x, true, Leaf)), -1, b)
    ensures Unique(Plug(c, Branch(Leaf, |a|, x, true, Leaf)))
  {
    var t := Branch(Leaf, |a|, x, true, Leaf);
    PlugHangs(c, Leaf, a);
    CtxHangsIds(c, -1, a);
    FrameUnique(c, Leaf);
    CtxRelinked(c, -1, |a|, a, b, {c.id});
    PlugHangs(c, t, b);
    PlugDistinct(c, Leaf, t);
  }

  /** `x` falls between the keys before the hole and those after it. */
  ghost predicate Between(c: Ctx, x: int) {
    (forall k :: k in Before(c) ==> k < x) && (forall k :: k in After(c) ==> x < k)
  }

  /** The node at the hole as a cell of the arena. */
  lemma Here(c: Ctx, s: Tree, nodes: seq<Cell>)
    requires Hangs(Plug(c, s), -1, nodes) && s.Branch?
    ensures 0 <= s.id < |nodes| && nodes[s.id] == Cell(s.key, Id(s.left), Id(s.right), ParentId(c), s.red)
    ensures nodes[s.id].left == Id(s.left) && (Id(s.left) == -1 <==> s.left.Leaf?)
    ensures nodes[s.id].right == Id(s.right) && (Id(s.right) == -1 <==> s.right.Leaf?)
  {
    PlugHangs(c, s, nodes);
    assert Hangs(s.left, s.id, nodes) && Hangs(s.right, s.id, nodes);
  }

  /** insert's walk goes left of a larger key and right of a smaller one. */
  lemma Descend(c: Ctx, s: Tree, x: int)
    requires s.Branch? && SearchTree.Ordered(Plain(s)) && Between(c, x) && x != s.key
    ensures x < s.key ==> Between(InLeft(c, s.id, s.key, s.red, s.right), x) && SearchTree.Ordered(Plain(s.left))
    ensures s.key < x ==> Between(InRight(c, s.left, s.id, s.key, s.red), x) && SearchTree.Ordered(Plain(s.right))
  {
    SearchTree.KeysInOrder(Plain(s.left));
    SearchTree.KeysInOrder(Plain(s.right));
  }

  /** insert's walk meets `x` only where it is stored. */
  lemma Met(c: Ctx, s: Tree, x: int)
    requires s.Branch? && s.key == x
    ensures x in SearchTree.Keys(Plain(Plug(c, s)))
  {
    assert x in InOrder(s) by {
      SearchTree.KeysInOrder(Plain(s));
    }
    PlugInOrder(c, s);
    SearchTree.KeysInOrder(Plain(Plug(c, s)));
  }

  /** A key that falls between the keys before a leaf slot and those after it
      keeps the tree ordered there, and is new. */
  lemma AttachedOrder(c: Ctx, x: int, z: int)
    requires SearchTree.Ordered(Plain(Plug(c, Leaf))) && Between(c, x)
    ensures SearchTree.Ordered(Plain(Plug(c, Branch(Leaf, z, x, true, Leaf))))
    ensures SearchTree.Keys(Plain(Plug(c, Branch(Leaf, z, x, true, Leaf)))) == SearchTree.Keys(Plain(Plug(c, Leaf))) + {x}
    ensures x !in SearchTree.Keys(Plain(Plug(c, Leaf)))
    ensures Traversal.Size(Plain(Plug(c, Branch(Leaf, z, x, true, Leaf)))) == Traversal.Size(Plain(Plug(c, Leaf))) + 1
  {
    var t, t' := Plug(c, Leaf), Plug(c, Branch(Leaf, z, x, true, Leaf));
    PlugInOrder(c, Leaf);
    PlugInOrder(c, Branch(Leaf, z, x, true, Leaf));
    assert InOrder(t) == Before(c) + After(c);
    assert InOrder(t') == Before(c) + [x] + After(c);
    SearchTree.OrderedIffIncreasing(Plain(t));
    IncreasingInsert(Before(c), x, After(c));
    SearchTree.OrderedIffIncreasing(Plain(t'));
    IncreasingDrop(Before(c), x, After(c));
    KeysOfSplice(t, t', Before(c), x, After(c));
    Traversal.InOrderSize(Plain(t));
    Traversal.InOrderSize(Plain(t'));
  }

  /** The keys of a tree whose keys in order are those of another with one more. */
  lemma KeysOfSplice(t: Tree, t': Tree, a: seq<int>, x: int, b: seq<int>)
    requires InOrder(t) == a + b && InOrder(t') == a + [x] + b
    requires forall k :: k in a + b <==> k in a + [x] + b && k != x
    ensures SearchTree.Keys(Plain(t')) == SearchTree.Keys(Plain(t)) + {x}
    ensures x !in SearchTree.Keys(Plain(t))
  {
    SearchTree.KeysInOrder(Plain(t));
    SearchTree.KeysInOrder(Plain(t'));
    var k, k' := SearchTree.Keys(Plain(t)), SearchTree.Keys(Plain(t'));
    forall y | y in k'
      ensures y in k + {x}
    {
      assert y in a + [x] + b;
    }
    forall y | y in k + {x}
      ensures y in k'
    {
      if y != x {
        assert y in a + b;
      }
      assert y in a + [x] + b;
    }
    assert x !in a + b;
  }

  /** An empty tree gets its first node as a red root of its own. */
  lemma Planted(t: Tree, x: int, a: seq<Cell>, b: seq<Cell>)
    requires Hangs(t, -1, a) && Id(t) == -1 && b == a + [Cell(x, -1, -1, -1, true)]
    ensures t == Leaf
    ensures var l := Branch(Leaf, |a|, x, true, Leaf);
      && Hangs(l, -1, b) && Unique(l) && InsertState(Top, l)
      && SearchTree.Ordered(Plain(l)) && SearchTree.Keys(Plain(l)) == {x} && Traversal.Size(Plain(l)) == 1
  {
    HangsIds(t, -1, a);
    InsertLeaf(Top, |a|, x);
  }

  /** Everything insert's hanging of the new node under `c.id` establishes. */
  lemma Attached(c: Ctx, x: int, a: seq<Cell>, b: seq<Cell>, t: Tree)
    requires t == Plug(c, Leaf) && !c.Top? && Hangs(t, -1, a) && Unique(t)
    requires SearchTree.Ordered(Plain(t)) && IsRedBlack(t) && Between(c, x)
    requires Rewrites(a, b, {c.id})
    requires At(b, |a|, Cell(x, -1, -1, c.id, true)) && At(b, c.id, FrameCell(c, |a|))
    ensures var t' := Plug(c, Branch(Leaf, |a|, x, true, Leaf));
      && Hangs(t', -1, b) && Unique(t') && Id(t') == Id(t)
      && SearchTree.Ordered(Plain(t')) && InsertState(c, Branch(Leaf, |a|, x, true, Leaf))
      && SearchTree.Keys(Plain(t')) == SearchTree.Keys(Plain(t)) + {x} && x !in SearchTree.Keys(Plain(t))
      && Traversal.Size(Plain(t')) == Traversal.Size(Plain(t)) + 1
  {
    AttachedHangs(c, x, a, b);
    AttachedOrder(c, x, |a|);
    PlugRoot(c, Branch(Leaf, |a|, x, true, Leaf), Leaf);
    InsertLeaf(c, |a|, x);
  }

  /** Rebalancing keeps the keys, their order and the count. */
  lemma SameKeys(a: Tree, b: Tree)
    requires Same(a, b)
    ensures SearchTree.Ordered(Plain(a)) <==> SearchTree.Ordered(Plain(b))
    ensures SearchTree.Keys(Plain(a)) == SearchTree.Keys(Plain(b))
    ensures Traversal.Size(Plain(a)) == Traversal.Size(Plain(b))
  {
    SearchTree.OrderedIffIncreasing(Plain(a));
    SearchTree.OrderedIffIncreasing(Plain(b));
    Traversal.InOrderSize(Plain(a));
    Traversal.InOrderSize(Plain(b));
    KeysOfInOrder(a, b);
  }

  lemma KeysOfInOrder(a: Tree, b: Tree)
    requires InOrder(a) == InOrder(b)
    ensures SearchTree.Keys(Plain(a)) == SearchTree.Keys(Plain(b))
  {
    SearchTree.KeysInOrder(Plain(a));
    SearchTree.KeysInOrder(Plain(b));
    var ka, kb := SearchTree.Keys(Plain(a)), SearchTree.Keys(Plain(b));
    forall k | k in ka
      ensures k in kb
    {
      assert k in Traversal.InOrder(Plain(a));
    }
    forall k | k in kb
      ensures k in ka
    {
      assert k in Traversal.InOrder(Plain(b));
    }
  }

  /** The arena's links are the shared traversals' `left`, `right` and `elem`. */
  lemma {:induction false} HangsLinks(t: Tree, p: int, nodes: seq<Cell>)
    requires Hangs(t, p, nodes)
    ensures Traversal.Links(Plain(t), LeftOf(nodes), RightOf(nodes), ElemOf(nodes))
    ensures Traversal.RootOf(Plain(t)) == Id(t)
  {
    if t.Branch? {
      HangsLinks(t.left, t.id, nodes);
      HangsLinks(t.right, t.id, nodes);
    }
  }

  /** The node with id `id` as a hole of the tree held in `c`. */
  lemma {:induction false} Locate(c: Ctx, t: Tree, id: int) returns (c': Ctx, s: Tree)
    requires id in Ids(t)
    ensures Plug(c', s) == Plug(c, t) && s.Branch? && s.id == id
    decreases t
  {
    Unfold(t);
    if t.id == id {
      c', s := c, t;
    } else if id in Ids(t.left) {
      c', s := Locate(InLeft(c, t.id, t.key, t.red, t.right), t.left, id);
    } else {
      c', s := Locate(InRight(c, t.left, t.id, t.key, t.red), t.right, id);
    }
  }

  /** Go `delete` copying its predecessor's element into a node: ids, links
      and colours stay, so does every requirement but the order. */
  lemma Rekeyed(c: Ctx, s: Tree, k: int)
    requires Unique(Plug(c, s)) && IsRedBlack(Plug(c, s)) && s.Branch?
    ensures Unique(Plug(c, s.(key := k))) && IsRedBlack(Plug(c, s.(key := k)))
    ensures InOrder(Plug(c, s.(key := k))) == Before(c) + InOrder(s.left) + [k] + InOrder(s.right) + After(c)
  {
    RekeyedUnique(c, s, k);
    RekeyedColours(c, s, k);
    PlugInOrder(c, s.(key := k));
  }

  lemma RekeyedUnique(c: Ctx, s: Tree, k: int)
    requires Unique(Plug(c, s)) && s.Branch?
    ensures Unique(Plug(c, s.(key := k)))
  {
    var s' := s.(key := k);
    PlugUnique(c, s);
    Unfold(s);
    Unfold(s');
    PlugDistinct(c, s, s');
  }

  lemma RekeyedColours(c: Ctx, s: Tree, k: int)
    requires IsRedBlack(Plug(c, s)) && s.Branch?
    ensures IsRedBlack(Plug(c, s.(key := k)))
  {
    var s' := s.(key := k);
    assert Black(s') == Black(s) && (Balanced(s') <==> Balanced(s)) && (RedOk(s') <==> RedOk(s));
    PlugBalanced(c, s);
    PlugBalanced(c, s');
    PlugRedOk(c, s);
    PlugRedOk(c, s');
    if !c.Top? {
      PlugRootRed(c, s);
      PlugRootRed(c, s');
    }
  }

  /** The predecessor of a key with two subtrees is the largest key on its
      left, and copying it over the key leaves it twice in the in-order
      sequence, once in each place. */
  lemma Predecessor(c: Ctx, s: Tree, a: seq<int>, x: int, b: seq<int>) returns (a0: seq<int>, v: int)
    requires s.Branch? && s.left.Branch? && s.key == x
    requires SearchTree.Increasing(a + [x] + b) && a == Before(c) + InOrder(s.left) && b == InOrder(s.right) + After(c)
    ensures v == SearchTree.Max(Plain(s.left)) && a == a0 + [v] && v !in a0 && v !in b
    ensures v in InOrder(s.left) && forall k :: k in InOrder(s.left) ==> k <= v
    ensures Before(c) + InOrder(s.left) + [v] + InOrder(s.right) + After(c) == a0 + [v, v] + b
  {
    v := SearchTree.Max(Plain(s.left));
    MaxLast(Plain(s.left));
    var l := InOrder(s.left);
    a0 := Before(c) + l[..|l| - 1];
    assert a == a0 + [v] by {
      assert l == l[..|l| - 1] + [v];
    }
    assert a + [x] + b == a0 + [v] + ([x] + b);
    SearchTree.IncreasingConcat(a0, v, [x] + b);
    LastGreatest(Before(c), l, a0, v);
    assert v !in b by {
      assert forall y :: y in b ==> y in [x] + b;
    }
    calc {
      Before(c) + l + [v] + InOrder(s.right) + After(c);
      a + [v] + b;
      a0 + [v, v] + b;
    }
  }

  /** The tail `l` of a sequence whose last entry `v` exceeds all others has
      `v` as its greatest entry. */
  lemma LastGreatest(p: seq<int>, l: seq<int>, a0: seq<int>, v: int)
    requires p + l == a0 + [v] && l != [] && forall y :: y in a0 ==> y < v
    ensures v in l && forall k :: k in l ==> k <= v
  {
    assert l[|l| - 1] == (p + l)[|p + l| - 1];
    forall k | k in l
      ensures k <= v
    {
      assert k in p + l;
    }
  }

  /** The node a predecessor's id names in the re-keyed tree has no right
      child, and without it the in-order sequence holds the key once. */
  lemma PredecessorPlace(t: Tree, nodes: seq<Cell>, pred: int, a0: seq<int>, v: int, b: seq<int>) returns (cm: Ctx, sm: Tree)
    requires Hangs(t, -1, nodes) && pred in Ids(t) && 0 <= pred < |nodes|
    requires nodes[pred].elem == v && nodes[pred].right == -1
    requires InOrder(t) == a0 + [v, v] + b && v !in a0 && v !in b
    ensures t == Plug(cm, sm) && sm.Branch? && sm.id == pred && sm.key == v && sm.right.Leaf?
    ensures Before(cm) + InOrder(sm.left) + After(cm) == a0 + [v] + b
  {
    cm, sm := Locate(Top, t, pred);
    Here(cm, sm, nodes);
    PlugInOrder(cm, sm);
    Unfold(sm);
    assert InOrder(t) == (Before(cm) + InOrder(sm.left)) + [v] + After(cm);
    DropDouble(a0, v, b, Before(cm) + InOrder(sm.left), After(cm));
  }

  /** The place of the node `d` holding `x`, and the keys before and after it. */
  lemma Position(t: Tree, nodes: seq<Cell>, d: int, x: int) returns (c: Ctx, s: Tree, a: seq<int>, b: seq<int>)
    requires Hangs(t, -1, nodes) && d in Ids(t) && 0 <= d < |nodes| && nodes[d].elem == x
    ensures t == Plug(c, s) && s.Branch? && s.id == d && s.key == x
    ensures (nodes[d].left == -1 <==> s.left.Leaf?) && (nodes[d].right == -1 <==> s.right.Leaf?)
    ensures a == Before(c) + InOrder(s.left) && b == InOrder(s.right) + After(c) && InOrder(t) == a + [x] + b
  {
    c, s := Locate(Top, t, d);
    Here(c, s, nodes);
    PlugInOrder(c, s);
    a, b := Before(c) + InOrder(s.left), InOrder(s.right) + After(c);
  }

  /** Without a node that has at most one child, the in-order sequence keeps
      both sides of it. */
  lemma ChildInOrder(c: Ctx, s: Tree)
    requires s.Branch? && (s.left.Leaf? || s.right.Leaf?)
    ensures Before(c) + InOrder(Child(s)) + After(c) == (Before(c) + InOrder(s.left)) + (InOrder(s.right) + After(c))
  {
    Unfold(s);
  }

  /** Of two equal neighbours in a sequence that holds the value nowhere
      else, dropping either leaves the same sequence. */
  lemma DropDouble(a: seq<int>, v: int, b: seq<int>, x: seq<int>, y: seq<int>)
    requires x + [v] + y == a + [v, v] + b && v !in a && v !in b
    ensures x + y == a + [v] + b
  {
    var s := a + [v, v] + b;
    assert s[|x|] == v by {
      assert (x + [v] + y)[|x|] == v;
    }
    assert forall i :: 0 <= i < |a| ==> s[i] == a[i];
    assert forall i :: |a| + 2 <= i < |s| ==> s[i] == b[i - |a| - 2];
    assert |a| <= |x| <= |a| + 1;
    assert x == (x + [v] + y)[..|x|] == s[..|x|];
    assert y == (x + [v] + y)[|x| + 1..] == s[|x| + 1..];
    if |x| == |a| {
      assert s[..|x|] == a;
      assert s[|x| + 1..] == [v] + b;
    } else {
      assert s[..|x|] == a + [v];
      assert s[|x| + 1..] == b;
    }
  }

  /** The rightmost key comes last in order. */
  lemma {:induction false} MaxLast(t: Traversal.Shape)
    requires t.Node?
    ensures |Traversal.InOrder(t)| > 0 && Traversal.InOrder(t)[|Traversal.InOrder(t)| - 1] == SearchTree.Max(t)
  {
    if t.right.Node? {
      MaxLast(t.right);
    }
  }

  /** Taking `x` out of an ordered sequence keeps it ordered and drops `x` from its keys. */
  lemma Detached(t: Tree, t': Tree, a: seq<int>, x: int, b: seq<int>)
    requires InOrder(t) == a + [x] + b && InOrder(t') == a + b && SearchTree.Ordered(Plain(t))
    ensures SearchTree.Ordered(Plain(t'))
    ensures SearchTree.Keys(Plain(t')) == SearchTree.Keys(Plain(t)) - {x} && x in SearchTree.Keys(Plain(t))
    ensures Traversal.Size(Plain(t')) + 1 == Traversal.Size(Plain(t))
  {
    SearchTree.OrderedIffIncreasing(Plain(t));
    SearchTree.OrderedIffIncreasing(Plain(t'));
    IncreasingDrop(a, x, b);
    KeysOfSplice(t', t, a, x, b);
    Traversal.InOrderSize(Plain(t));
    Traversal.InOrderSize(Plain(t'));
  }

  class RedBlackTree {
    var size: int
    var root: int
    var nodes: seq<Cell>
    ghost var tree: Tree

    /** The arena holds `tree` from the root down, and its ids are unique. */
    ghost predicate Linked()
      reads this
    {
      Hangs(tree, -1, nodes) && Unique(tree) && root == Id(tree)
    }

    /** ... and `tree` is a search tree, a red-black tree, and `size` counts it. */
    ghost predicate Valid()
      reads this
    {
      && Linked() && SearchTree.Ordered(Plain(tree)) && IsRedBlack(tree)
      && size == Traversal.Size(Plain(tree))
    }

    ghost function Elements(): set<int>
      reads this
    {
      SearchTree.Keys(Plain(tree))
    }

    /** Go `New`. */
    constructor ()
      ensures Valid() && Elements() == {}
    {
      size, root, nodes := 0, -1, [];
      tree := Leaf;
    }

    /** Go's assignment `n.red = r` to the node `n` at the root of `s`. */
    method Paint(n: int, r: bool, ghost c: Ctx, ghost s: Tree)
      requires Linked() && tree == Plug(c, s) && s.Branch? && n == s.id
      modifies this
      ensures Linked() && tree == Plug(c, s.(red := r)) && Plain(tree) == Plain(old(tree))
      ensures size == old(size) && |nodes| == |old(nodes)|
    {
      Retop(c, s, s.key, r, nodes);
      Family(c, s, nodes);
      nodes := nodes[n := nodes[n].(red := r)];
      tree := Plug(c, s.(red := r));
      PlainPlug(c, s, s.(red := r));
      PlugHangs(c, s.(red := r), nodes);
    }

    /** Go `replaceNode`. */
    method ReplaceNode(was: int, now: int)
      requires 0 <= was < |nodes| && -1 <= now < |nodes|
      requires nodes[was].parent == -1 || 0 <= nodes[was].parent < |nodes|
      modifies this
      ensures nodes == Replaced(old(nodes), was, now)
      ensures root == (if old(nodes[was].parent) == -1 then now else old(root))
      ensures size == old(size) && tree == old(tree)
    {
      var p := nodes[was].parent;
      if p == -1 {
        root := now;
      } else if was == nodes[p].left {
        nodes := nodes[p := nodes[p].(left := now)];
      } else {
        nodes := nodes[p := nodes[p].(right := now)];
      }
      if now != -1 {
        nodes := nodes[now := nodes[now].(parent := p)];
      }
    }

    /** Go `rotateLeft` at the node `n` at the root of `s`. */
    method RotateLeft(n: int, ghost c: Ctx, ghost s: Tree)
      requires Linked() && tree == Plug(c, s) && s.Branch? && s.right.Branch? && n == s.id
      modifies this
      ensures Linked() && tree == Plug(c, LeftRotated(s)) && Same(tree, old(tree))
      ensures size == old(size) && |nodes| == |old(nodes)|
    {
      ghost var a := nodes;
      LeftRotationHangs(c, s, a);
      var right := nodes[n].right;
      ReplaceNode(n, right);
      nodes := nodes[n := nodes[n].(right := nodes[right].left)];
      if nodes[right].left != -1 {
        var y := nodes[right].left;
        nodes := nodes[y := nodes[y].(parent := n)];
      }
      nodes := nodes[right := nodes[right].(left := n)];
      nodes := nodes[n := nodes[n].(parent := right)];
      assert nodes == LeftRotation(a, n);
      PlugRoot(c, LeftRotated(s), s);
      tree := Plug(c, LeftRotated(s));
      PlugSame(c, s, LeftRotated(s));
      SameUnique(old(tree), tree);
      PlugHangs(c, LeftRotated(s), nodes);
    }

    /** Go `rotateRight` at the node `n` at the root of `s`. */
    method RotateRight(n: int, ghost c: Ctx, ghost s: Tree)
      requires Linked() && tree == Plug(c, s) && s.Branch? && s.left.Branch? && n == s.id
      modifies this
      ensures Linked() && tree == Plug(c, RightRotated(s)) && Same(tree, old(tree))
      ensures size == old(size) && |nodes| == |old(nodes)|
    {
      ghost var a := nodes;
      RightRotationHangs(c, s, a);
      var left := nodes[n].left;
      ReplaceNode(n, left);
      nodes := nodes[n := nodes[n].(left := nodes[left].right)];
      if nodes[left].right != -1 {
        var y := nodes[left].right;
        nodes := nodes[y := nodes[y].(parent := n)];
      }
      nodes := nodes[left := nodes[left].(right := n)];
      nodes := nodes[n := nodes[n].(parent := left)];
      assert nodes == RightRotation(a, n);
      PlugRoot(c, RightRotated(s), s);
      tree := Plug(c, RightRotated(s));
      PlugSame(c, s, RightRotated(s));
      SameUnique(old(tree), tree);
      PlugHangs(c, RightRotated(s), nodes);
    }
 
    /** Go `insert`: a new red node is hung from the free slot where `x`
        belongs and the tree is rebalanced; an equal element ends the walk
        and leaves the tree as it was. */
    method Insert(x: int)
      requires Valid()
      modifies this
      ensures Valid()
      ensures Elements() == old(Elements()) + {x}
      ensures size == old(size) + (if x in old(Elements()) then 0 else 1)
      ensures x in old(Elements()) ==> tree == old(tree) && nodes == old(nodes) && root == old(root)
    {
      var z, added, c := Hang(x);
      if !added {
        return;
      }
      size := size + 1;
      ghost var t1 := tree;
      InsertCase1(z, c, Branch(Leaf, z, x, true, Leaf));
      SameKeys(t1, tree);
    }

    /** The first half of Go `insert`: the new red node `z` takes the free
        slot where `x` belongs, as the root of an empty tree or under the
        node the walk stops at; when the walk meets `x` instead, that node
        takes the element and nothing is added. */
    method Hang(x: int) returns (z: int, added: bool, ghost c: Ctx)
      requires Valid()
      modifies this
      ensures size == old(size)
      ensures added <==> x !in old(Elements())
      ensures !added ==> Valid() && tree == old(tree) && size == old(size)
      ensures !added ==> nodes == old(nodes) && root == old(root)
      ensures added ==> && Linked() && tree == Plug(c, Branch(Leaf, z, x, true, Leaf))
                        && InsertState(c, Branch(Leaf, z, x, true, Leaf))
                        && SearchTree.Ordered(Plain(tree)) && Elements() == old(Elements()) + {x}
                        && Traversal.Size(Plain(tree)) == size + 1
    {
      ghost var a, t0 := nodes, tree;
      z := |nodes|;
      c := Top;
      if root == -1 {
        nodes := nodes + [Cell(x, -1, -1, -1, true)];
        Planted(tree, x, a, nodes);
        root := z;
        tree := Branch(Leaf, z, x, true, Leaf);
        return z, true, c;
      }
      var n, found;
      n, found, c := Walk(x);
      if found {
        assert nodes[n := nodes[n].(elem := x)] == nodes;
        nodes := nodes[n := nodes[n].(elem := x)];
        return z, false, c;
      }
      nodes := nodes + [Cell(x, -1, -1, -1, true)];
      if x < nodes[n].elem {
        nodes := nodes[n := nodes[n].(left := z)];
      } else {
        nodes := nodes[n := nodes[n].(right := z)];
      }
      nodes := nodes[z := nodes[z].(parent := n)];
      Attached(c, x, a, nodes, t0);
      tree := Plug(c, Branch(Leaf, z, x, true, Leaf));
      added := true;
    }

    /** The walk of Go `insert` from the root: it stops at the node holding
        `x`, or at the node with a free slot on the side `x` belongs. */
    method Walk(x: int) returns (n: int, found: bool, ghost c: Ctx)
      requires Valid() && root != -1
      ensures found <==> x in Elements()
      ensures found ==> 0 <= n < |nodes| && nodes[n].elem == x
      ensures !found ==> && !c.Top? && n == c.id && Plug(c, Leaf) == tree && Between(c, x)
                         && 0 <= n < |nodes| && nodes[n] == FrameCell(c, -1)
                         && (c.InLeft? <==> x < nodes[n].elem)
    {
      n := root;
      c := Top;
      ghost var sub := tree;
      while true
        invariant Plug(c, sub) == tree && sub.Branch? && n == sub.id
        invariant SearchTree.Ordered(Plain(sub)) && Between(c, x)
        decreases Traversal.Size(Plain(sub))
      {
        Here(c, sub, nodes);
        if x < nodes[n].elem {
          Descend(c, sub, x);
          c := InLeft(c, sub.id, sub.key, sub.red, sub.right);
          if nodes[n].left == -1 {
            AttachedOrder(c, x, 0);
            return n, false, c;
          }
          n := nodes[n].left;
          sub := sub.left;
        } else if nodes[n].elem < x {
          Descend(c, sub, x);
          c := InRight(c, sub.left, sub.id, sub.key, sub.red);
          if nodes[n].right == -1 {
            AttachedOrder(c, x, 0);
            return n, false, c;
          }
          n := nodes[n].right;
          sub := sub.right;
        } else {
          Met(c, sub, x);
          return n, true, c;
        }
      }
    }

    /** Go `insertCase1`: a red node at the root is painted black. */
    method InsertCase1(n: int, ghost c: Ctx, ghost s: Tree)
      requires Linked() && tree == Plug(c, s) && InsertState(c, s) && n == s.id
      modifies this
      ensures Linked() && IsRedBlack(tree) && Same(tree, old(tree))
      ensures size == old(size) && |nodes| == |old(nodes)|
      decreases Depth(c), 4
    {
      Family(c, s, nodes);
      if nodes[n].parent == -1 {
        Paint(n, false, c, s);
      } else {
        InsertCase2(n, c, s);
      }
    }

    /** Go `insertCase2`: under a black parent the tree is valid. */
    method InsertCase2(n: int, ghost c: Ctx, ghost s: Tree)
      requires Linked() && tree == Plug(c, s) && InsertState(c, s) && n == s.id && !c.Top?
      modifies this
      ensures Linked() && IsRedBlack(tree) && Same(tree, old(tree))
      ensures size == old(size) && |nodes| == |old(nodes)|
      decreases Depth(c), 3
    {
      Family(c, s, nodes);
      if !IsRedAt(nodes, nodes[n].parent) {
        InsertUnderBlack(c, s);
      } else {
        InsertCase3(n, c, s);
      }
    }

    /** Go `insertCase3`: with a red uncle, parent and uncle turn black, the
        grandparent red, and the grandparent is fixed next. */
    method InsertCase3(n: int, ghost c: Ctx, ghost s: Tree)
      requires Linked() && tree == Plug(c, s) && InsertState(c, s) && n == s.id && !c.Top? && c.red
      modifies this
      ensures Linked() && IsRedBlack(tree) && Same(tree, old(tree))
      ensures size == old(size) && |nodes| == |old(nodes)|
      decreases Depth(c), 2
    {
      InsertGrandparent(c, s);
      Family(c, s, nodes);
      HangsRoot(Sib(c.up), c.up.id, nodes);
      if UncleAt(nodes, n) != -1 && nodes[UncleAt(nodes, n)].red {
        ghost var u := Sib(c.up);
        ghost var p := Up(Reframe(c, c.up, false, Sib(c)), s);
        Paint(nodes[n].parent, false, c.up, Up(c, s));
        ghost var c1 := Reframe(c, c.up, false, Sib(c));
        Family(c1, s, nodes);
        Paint(UncleAt(nodes, n), false, SibCtx(c.up, p), u);
        ghost var gc := Reframe(c.up, c.up.up, c.up.red, u.(red := false));
        ghost var c2 := Reframe(c, gc, false, Sib(c));
        assert tree == Plug(c2, s);
        Family(c2, s, nodes);
        Paint(GrandparentAt(nodes, n), true, c.up.up, Up(gc, p));
        assert tree == Plug(c.up.up, Recoloured(c, s));
        InsertRecolour(c, s);
        PlainPlug(c.up.up, Up(c.up, Up(c, s)), Recoloured(c, s));
        ghost var c3 := Reframe(c, Reframe(c.up, c.up.up, true, u.(red := false)), false, Sib(c));
        assert tree == Plug(c3, s);
        Family(c3, s, nodes);
        assert Depth(c) == Depth(c.up.up) + 2;
        InsertCase1(GrandparentAt(nodes, n), c.up.up, Recoloured(c, s));
      } else {
        InsertCase4(n, c, s);
      }
    }

    /** Go `insertCase4`: an inner grandchild is rotated above its parent,
        which then goes on as the outer grandchild. */
    method InsertCase4(n: int, ghost c: Ctx, ghost s: Tree)
      requires Linked() && tree == Plug(c, s) && InsertState(c, s) && n == s.id && !c.Top? && c.red
      requires !c.up.Top? && !IsRed(Sib(c.up))
      modifies this
      ensures Linked() && IsRedBlack(tree) && Same(tree, old(tree))
      ensures size == old(size) && |nodes| == |old(nodes)|
      decreases Depth(c), 1
    {
      Family(c, s, nodes);
      var p := nodes[n].parent;
      if n == nodes[p].right && p == nodes[GrandparentAt(nodes, n)].left {
        RotateLeft(p, c.up, Up(c, s));
        InsertTurn(c, s);
        Family(TurnedCtx(c, s), TurnedSub(c, s), nodes);
        InsertCase5(nodes[n].left, TurnedCtx(c, s), TurnedSub(c, s));
      } else if n == nodes[p].left && p == nodes[GrandparentAt(nodes, n)].right {
        RotateRight(p, c.up, Up(c, s));
        InsertTurn(c, s);
        Family(TurnedCtx(c, s), TurnedSub(c, s), nodes);
        InsertCase5(nodes[n].right, TurnedCtx(c, s), TurnedSub(c, s));
      } else {
        InsertCase5(n, c, s);
      }
    }

    /** Go `insertCase5`: parent black, grandparent red, and a rotation at the
        grandparent lifts the parent above it. */
    method InsertCase5(n: int, ghost c: Ctx, ghost s: Tree)
      requires Linked() && tree == Plug(c, s) && OuterReady(c, s) && n == s.id
      modifies this
      ensures Linked() && IsRedBlack(tree) && Same(tree, old(tree))
      ensures size == old(size) && |nodes| == |old(nodes)|
      decreases Depth(c), 0
    {
      Family(c, s, nodes);
      Paint(nodes[n].parent, false, c.up, Up(c, s));
      ghost var c1 := Reframe(c, c.up, false, Sib(c));
      Family(c1, s, nodes);
      Paint(GrandparentAt(nodes, n), true, c.up.up, Up(c.up, Up(c1, s)));
      ghost var gc := Reframe(c.up, c.up.up, true, Sib(c.up));
      ghost var c2 := Reframe(c, gc, false, Sib(c));
      assert tree == Plug(c2, s);
      Family(c2, s, nodes);
      ghost var g := Up(gc, Up(c1, s));
      if n == nodes[nodes[n].parent].left {
        RotateRight(GrandparentAt(nodes, n), c.up.up, g);
      } else {
        RotateLeft(GrandparentAt(nodes, n), c.up.up, g);
      }
      InsertStraighten(c, s);
      PlainPlug(c.up.up, Up(c.up, Up(c, s)), g);
    }
 

    /** Go `deleteCase1`: at the root the deficit is gone; below it the
        fix-up goes on. The node `x` at the root of `s` stands for the one
        being removed: every path through it is one black node short. */
    method DeleteCase1(x: int, ghost c: Ctx, ghost s: Tree, ghost h: nat) returns (ghost c': Ctx)
      requires Linked() && tree == Plug(c, s) && DeleteState(c, h) && s.Branch? && x == s.id
      modifies this
      ensures Linked() && tree == Plug(c', s) && DeleteDone(c', h) && SamePlace(c', c) && Same(tree, old(tree))
      ensures size == old(size) && |nodes| == |old(nodes)|
      decreases DeleteRank(c), 5
    {
      Family(c, s, nodes);
      if nodes[x].parent == -1 {
        return c;
      }
      c' := DeleteCase2(x, c, s, h);
    }

    /** Go `deleteCase2`: a red sibling is painted black, the parent red,
        and a rotation at the parent lifts the sibling above it. */
    method DeleteCase2(x: int, ghost c: Ctx, ghost s: Tree, ghost h: nat) returns (ghost c': Ctx)
      requires Linked() && tree == Plug(c, s) && DeleteState(c, h) && s.Branch? && x == s.id && !c.Top?
      modifies this
      ensures Linked() && tree == Plug(c', s) && DeleteDone(c', h) && SamePlace(c', c) && Same(tree, old(tree))
      ensures size == old(size) && |nodes| == |old(nodes)|
      decreases DeleteRank(c), 4
    {
      Family(c, s, nodes);
      HangsRoot(Sib(c), c.id, nodes);
      if IsRedAt(nodes, SiblingAt(nodes, x)) {
        DeleteRaise(c, h, s);
        ghost var u := Sib(c);
        var p := nodes[x].parent;
        Paint(p, true, c.up, Up(c, s));
        ghost var c1 := Reframe(c, c.up, true, u);
        assert tree == Plug(c1, s);
        Family(c1, s, nodes);
        Paint(SiblingAt(nodes, x), false, SibCtx(c1, s), u);
        ghost var c2 := Reframe(c, c.up, true, u.(red := false));
        assert tree == Plug(c2, s);
        Family(c2, s, nodes);
        if x == nodes[p].left {
          RotateLeft(p, c.up, Up(c2, s));
        } else {
          RotateRight(p, c.up, Up(c2, s));
        }
        assert tree == Plug(Raised(c), s);
        c' := DeleteCase3(x, Raised(c), s, h);
      } else {
        c' := DeleteCase3(x, c, s, h);
      }
    }

    /** Go `deleteCase3`: with parent, sibling and nephews black, the
        sibling turns red and the parent carries the deficit up. */
    method DeleteCase3(x: int, ghost c: Ctx, ghost s: Tree, ghost h: nat) returns (ghost c': Ctx)
      requires Linked() && tree == Plug(c, s) && DeleteState(c, h) && s.Branch? && x == s.id && !c.Top?
      requires !IsRed(Sib(c))
      modifies this
      ensures Linked() && tree == Plug(c', s) && DeleteDone(c', h) && SamePlace(c', c) && Same(tree, old(tree))
      ensures size == old(size) && |nodes| == |old(nodes)|
      decreases DeleteRank(c), 3
    {
      Family(c, s, nodes);
      HangsRoot(Sib(c), c.id, nodes);
      var sib := SiblingAt(nodes, x);
      if && !IsRedAt(nodes, nodes[x].parent) && !IsRedAt(nodes, sib)
         && !IsRedAt(nodes, nodes[sib].left) && !IsRedAt(nodes, nodes[sib].right)
      {
        DeletePushUp(c, h);
        ghost var u := Sib(c);
        Paint(sib, true, SibCtx(c, s), u);
        ghost var c1 := Reframe(c, c.up, false, u.(red := true));
        assert tree == Plug(c1, s);
        Family(c1, s, nodes);
        ghost var c2 := DeleteCase1(nodes[x].parent, c.up, Up(c1, s), h + 1);
        DeletePushedUp(c, h, c2);
        c' := Reframe(c, c2, false, u.(red := true));
        assert Up(c', s) == Up(c1, s);
      } else {
        c' := DeleteCase4(x, c, s, h);
      }
    }

    /** Go `deleteCase4`: a red parent with black sibling and nephews
        swaps colours with the sibling. */
    method DeleteCase4(x: int, ghost c: Ctx, ghost s: Tree, ghost h: nat) returns (ghost c': Ctx)
      requires Linked() && tree == Plug(c, s) && DeleteState(c, h) && s.Branch? && x == s.id && !c.Top?
      requires !IsRed(Sib(c)) && (c.red || LeftRed(Sib(c)) || RightRed(Sib(c)))
      modifies this
      ensures Linked() && tree == Plug(c', s) && DeleteDone(c', h) && SamePlace(c', c) && Same(tree, old(tree))
      ensures size == old(size) && |nodes| == |old(nodes)|
      decreases DeleteRank(c), 2
    {
      Family(c, s, nodes);
      HangsRoot(Sib(c), c.id, nodes);
      var sib := SiblingAt(nodes, x);
      if && IsRedAt(nodes, nodes[x].parent) && !IsRedAt(nodes, sib)
         && !IsRedAt(nodes, nodes[sib].left) && !IsRedAt(nodes, nodes[sib].right)
      {
        DeleteSwap(c, h);
        ghost var u := Sib(c);
        Paint(sib, true, SibCtx(c, s), u);
        ghost var c1 := Reframe(c, c.up, true, u.(red := true));
        assert tree == Plug(c1, s);
        Family(c1, s, nodes);
        Paint(nodes[x].parent, false, c.up, Up(c1, s));
        c' := Reframe(c, c.up, false, u.(red := true));
        assert Up(c', s) == Up(c1, s).(red := false);
      } else {
        c' := DeleteCase5(x, c, s, h);
      }
    }

    /** Go `deleteCase5`: a red near nephew with a black far one is rotated
        into the sibling's place. */
    method DeleteCase5(x: int, ghost c: Ctx, ghost s: Tree, ghost h: nat) returns (ghost c': Ctx)
      requires Linked() && tree == Plug(c, s) && DeleteState(c, h) && s.Branch? && x == s.id && !c.Top?
      requires !IsRed(Sib(c)) && (LeftRed(Sib(c)) || RightRed(Sib(c)))
      modifies this
      ensures Linked() && tree == Plug(c', s) && DeleteDone(c', h) && SamePlace(c', c) && Same(tree, old(tree))
      ensures size == old(size) && |nodes| == |old(nodes)|
      decreases DeleteRank(c), 1
    {
      Family(c, s, nodes);
      HangsRoot(Sib(c), c.id, nodes);
      var sib := SiblingAt(nodes, x);
      var p := nodes[x].parent;
      ghost var c1 := c;
      if && x == nodes[p].left && !IsRedAt(nodes, sib)
         && IsRedAt(nodes, nodes[sib].left) && !IsRedAt(nodes, nodes[sib].right)
      {
        c1 := Twist(x, true, c, s, h);
      } else if && x == nodes[p].right && !IsRedAt(nodes, sib)
                && IsRedAt(nodes, nodes[sib].right) && !IsRedAt(nodes, nodes[sib].left)
      {
        c1 := Twist(x, false, c, s, h);
      }
      c' := DeleteCase6(x, c1, s, h);
    }

    /** The repainting and rotation at the sibling inside Go `deleteCase5`. */
    method Twist(x: int, left: bool, ghost c: Ctx, ghost s: Tree, ghost h: nat) returns (ghost c': Ctx)
      requires Linked() && tree == Plug(c, s) && DeleteState(c, h) && s.Branch? && x == s.id && !c.Top?
      requires left <==> c.InLeft?
      requires !IsRed(Sib(c))
      requires c.InLeft? ==> LeftRed(Sib(c)) && !RightRed(Sib(c))
      requires c.InRight? ==> RightRed(Sib(c)) && !LeftRed(Sib(c))
      modifies this
      ensures Linked() && tree == Plug(c', s) && c' == Reframe(c, c.up, c.red, Twisted(c)) && Same(tree, old(tree))
      ensures DeleteState(c', h) && !IsRed(Sib(c')) && SamePlace(c', c) && DeleteRank(c') == DeleteRank(c)
      ensures (c'.InLeft? ==> RightRed(Sib(c'))) && (c'.InRight? ==> LeftRed(Sib(c')))
      ensures size == old(size) && |nodes| == |old(nodes)|
    {
      DeleteTwist(c, h);
      Family(c, s, nodes);
      ghost var u := Sib(c);
      var sib := SiblingAt(nodes, x);
      Paint(sib, true, SibCtx(c, s), u);
      ghost var c1 := Reframe(c, c.up, c.red, u.(red := true));
      assert tree == Plug(c1, s);
      Family(c1, s, nodes);
      ghost var cs := SibCtx(c1, s);
      HangsRoot(Sib(c1), c.id, nodes);
      if left {
        Paint(nodes[sib].left, false, InLeft(cs, u.id, u.key, true, u.right), u.left);
        ghost var u2 := u.(red := true, left := u.left.(red := false));
        assert tree == Plug(cs, u2);
        RotateRight(sib, cs, u2);
      } else {
        Paint(nodes[sib].right, false, InRight(cs, u.left, u.id, u.key, true), u.right);
        ghost var u2 := u.(red := true, right := u.right.(red := false));
        assert tree == Plug(cs, u2);
        RotateLeft(sib, cs, u2);
      }
      c' := Reframe(c, c.up, c.red, Twisted(c));
      assert tree == Plug(c', s);
      PlugSame(c.up, Up(c, s), Up(c', s));
    }

    /** Go `deleteCase6`: the sibling takes the parent's colour, parent and
        far nephew turn black, and a rotation at the parent settles the
        deficit. */
    method DeleteCase6(x: int, ghost c: Ctx, ghost s: Tree, ghost h: nat) returns (ghost c': Ctx)
      requires Linked() && tree == Plug(c, s) && DeleteState(c, h) && s.Branch? && x == s.id && !c.Top?
      requires !IsRed(Sib(c))
      requires c.InLeft? ==> RightRed(Sib(c))
      requires c.InRight? ==> LeftRed(Sib(c))
      modifies this
      ensures Linked() && tree == Plug(c', s) && DeleteDone(c', h) && SamePlace(c', c) && Same(tree, old(tree))
      ensures size == old(size) && |nodes| == |old(nodes)|
      decreases DeleteRank(c), 0
    {
      Family(c, s, nodes);
      var p := nodes[x].parent;
      var sib := SiblingAt(nodes, x);
      ghost var u := Sib(c);
      Paint(sib, IsRedAt(nodes, p), SibCtx(c, s), u);
      ghost var c1 := Reframe(c, c.up, c.red, u.(red := c.red));
      assert tree == Plug(c1, s);
      Family(c1, s, nodes);
      Paint(p, false, c.up, Up(c1, s));
      ghost var c2 := Reframe(c, c.up, false, u.(red := c.red));
      assert tree == Plug(c2, s);
      Family(c2, s, nodes);
      ghost var cs := SibCtx(c2, s);
      HangsRoot(Sib(c2), c.id, nodes);
      if x == nodes[p].left {
        Paint(nodes[sib].right, false, InRight(cs, u.left, u.id, u.key, c.red), u.right);
        ghost var c3 := Reframe(c, c.up, false, u.(red := c.red, right := u.right.(red := false)));
        assert tree == Plug(c3, s);
        Family(c3, s, nodes);
        RotateLeft(p, c.up, Up(c3, s));
      } else {
        Paint(nodes[sib].left, false, InLeft(cs, u.id, u.key, c.red, u.right), u.left);
        ghost var c3 := Reframe(c, c.up, false, u.(red := c.red, left := u.left.(red := false)));
        assert tree == Plug(c3, s);
        Family(c3, s, nodes);
        RotateRight(p, c.up, Up(c3, s));
      }
      DeleteSettle(c, h, s);
      SettledPlace(c);
      c' := Settled(c);
      assert tree == Plug(c', s);
    }
 

    /** Go `delete`: the node holding `x`, or when it has two children the
        predecessor whose element it takes over, is taken out. */
    method Delete(x: int)
      requires Valid()
      modifies this
      ensures Valid()
      ensures Elements() == old(Elements()) - {x}
      ensures size == old(size) - (if x in old(Elements()) then 1 else 0)
      ensures x !in old(Elements()) ==> tree == old(tree) && nodes == old(nodes) && root == old(root)
    {
      HangsLinks(tree, -1, nodes);
      var d := SearchTree.Get(root, LeftOf(nodes), RightOf(nodes), ElemOf(nodes), Plain(tree), x);
      if root == -1 || d == -1 {
        return;
      }
      ghost var t0 := tree;
      HangsIds(tree, -1, nodes);
      assert d in Ids(tree) && ElemOf(nodes)(d) == x;
      ghost var c, s, a, b := Position(tree, nodes, d, x);
      SearchTree.OrderedIffIncreasing(Plain(t0));
      if nodes[d].left != -1 && nodes[d].right != -1 {
        ghost var v;
        d, v, c, s := CopyPredecessor(d, c, s, a, x, b);
      } else {
        ChildInOrder(c, s);
      }
      Unlink(d, c, s);
      Detached(t0, tree, a, x, b);
    }

    /** The two-children step of Go `delete`: the node takes its
        predecessor's element (the largest in its left subtree), and the
        predecessor, which has no right child, is the node to take out. */
    method CopyPredecessor(d: int, ghost c: Ctx, ghost s: Tree, ghost a: seq<int>, ghost x: int, ghost b: seq<int>)
      returns (pred: int, ghost v: int, ghost cm: Ctx, ghost sm: Tree)
      requires Linked() && IsRedBlack(tree) && tree == Plug(c, s) && s.Branch? && d == s.id
      requires s.left.Branch? && s.right.Branch? && s.key == x
      requires SearchTree.Increasing(a + [x] + b) && a == Before(c) + RedBlack.InOrder(s.left) && b == RedBlack.InOrder(s.right) + After(c)
      modifies this
      ensures v == SearchTree.Max(Plain(s.left)) && v in RedBlack.InOrder(s.left)
      ensures forall k :: k in RedBlack.InOrder(s.left) ==> k <= v
      ensures 0 <= d < |old(nodes)| && nodes == old(nodes)[d := old(nodes)[d].(elem := v)]
      ensures tree == Plug(c, s.(key := v))
      ensures Linked() && IsRedBlack(tree) && tree == Plug(cm, sm) && sm.Branch? && pred == sm.id && sm.right.Leaf?
      ensures sm.key == v && pred != d
      ensures Before(cm) + RedBlack.InOrder(sm.left) + After(cm) == a + b
      ensures size == old(size)
    {
      Family(c, s, nodes);
      HangsLinks(s.left, d, nodes);
      HangsIds(s.left, d, nodes);
      pred := SearchTree.FindMax(nodes[d].left, LeftOf(nodes), RightOf(nodes), ElemOf(nodes), Plain(s.left));
      ghost var a0;
      a0, v := Predecessor(c, s, a, x, b);
      PlugUnique(c, s);
      Unfold(s);
      assert pred != d;
      Rekey(d, nodes[pred].elem, c, s);
      PlugIds(c, s.(key := v));
      cm, sm := PredecessorPlace(tree, nodes, pred, a0, v, b);
    }

    /** The element write of Go `delete`: the node keeps its place and
        colour and takes the key `k`. */
    method Rekey(d: int, k: int, ghost c: Ctx, ghost s: Tree)
      requires Linked() && IsRedBlack(tree) && tree == Plug(c, s) && s.Branch? && d == s.id
      modifies this
      ensures Linked() && IsRedBlack(tree) && tree == Plug(c, s.(key := k))
      ensures RedBlack.InOrder(tree) == Before(c) + RedBlack.InOrder(s.left) + [k] + RedBlack.InOrder(s.right) + After(c)
      ensures 0 <= d < |old(nodes)| && nodes == old(nodes)[d := old(nodes)[d].(elem := k)]
      ensures size == old(size)
    {
      ghost var a1 := nodes;
      Retop(c, s, k, s.red, a1);
      assert s.(key := k, red := s.red) == s.(key := k);
      Family(c, s, nodes);
      nodes := nodes[d := nodes[d].(elem := k)];
      assert nodes == a1[d := a1[d].(elem := k, red := s.red)];
      Rekeyed(c, s, k);
      PlugRoot(c, s.(key := k), s);
      tree := Plug(c, s.(key := k));
    }

    /** The rest of Go `delete`, at a node with at most one child: the
        fix-up from deleteCase1 when the node is black, replaceNode by its
        child, and a red root painted black. */
    method Unlink(d: int, ghost c: Ctx, ghost s: Tree)
      requires Linked() && IsRedBlack(tree) && tree == Plug(c, s) && s.Branch? && d == s.id
      requires s.left.Leaf? || s.right.Leaf?
      modifies this
      ensures Linked() && IsRedBlack(tree)
      ensures RedBlack.InOrder(tree) == Before(c) + RedBlack.InOrder(Child(s)) + After(c)
      ensures size == old(size) - 1
    {
      Here(c, s, nodes);
      var child := if nodes[d].right == -1 then nodes[d].left else nodes[d].right;
      ghost var c', s' := Rebalance(d, child, c, s);
      Spliced(c', s', nodes);
      HoleCells(c', s', nodes);
      PlugRoot(c', Child(s'), s');
      ReplaceNode(d, child);
      assert root == Id(Plug(c', Child(s)));
      tree := Plug(c', Child(s));
      PlugInOrder(c', Child(s));
      BlackenRoot();
      size := size - 1;
    }

    /** The fix-up in Go `delete`: a black node takes its child's colour and
        deleteCase1 makes up for the black node its paths are about to lose;
        a red node, which has no child, needs nothing. */
    method Rebalance(d: int, child: int, ghost c: Ctx, ghost s: Tree) returns (ghost c': Ctx, ghost s': Tree)
      requires Linked() && IsRedBlack(tree) && tree == Plug(c, s) && s.Branch? && d == s.id
      requires s.left.Leaf? || s.right.Leaf?
      requires child == Id(Child(s))
      modifies this
      ensures Linked() && tree == Plug(c', s') && s'.Branch? && s'.id == d && Child(s') == Child(s)
      ensures s'.left == s.left && s'.right == s.right && SamePlace(c', c)
      ensures Balanced(Plug(c', Child(s))) && RedOk(Plug(c', Child(s)))
      ensures size == old(size) && |nodes| == |old(nodes)|
    {
      Family(c, s, nodes);
      HangsRoot(s, ParentId(c), nodes);
      DeleteStart(c, s);
      c', s' := c, s;
      if !IsRedAt(nodes, d) {
        Paint(d, IsRedAt(nodes, child), c, s);
        s' := s.(red := IsRed(Child(s)));
        c' := DeleteCase1(d, c, s', 0);
        DeleteFinish(c', 0, Child(s));
      }
    }

    /** The last step of Go `delete`: a red root is painted black. */
    method BlackenRoot()
      requires Linked() && Balanced(tree) && RedOk(tree)
      modifies this
      ensures Linked() && IsRedBlack(tree) && Plain(tree) == Plain(old(tree))
      ensures size == old(size) && |nodes| == |old(nodes)|
    {
      HangsRoot(tree, -1, nodes);
      if IsRedAt(nodes, root) {
        Blackened(tree);
        Paint(root, false, Top, tree);
      }
    }

    /** Go `Size`: the count kept beside the tree is its number of elements. */
    method Size() returns (n: int)
      requires Valid()
      ensures n == |Elements()|
    {
      SearchTree.OrderedSize(Plain(tree));
      n := size;
    }

    /** Go `Empty`: no root. */
    method Empty() returns (b: bool)
      requires Valid()
      ensures b <==> Elements() == {}
    {
      assert tree.Branch? ==> tree.key in Elements();
      b := root == -1;
    }

    /** Go `Add`: `insert`, then report a duplicate when the size did not grow. */
    method Add(x: int) returns (err: Outcome)
      requires Valid()
      modifies this
      ensures Valid() && Elements() == old(Elements()) + {x}
      ensures x in old(Elements()) ==> err == Fail(ItemExists) && size == old(size)
      ensures x in old(Elements()) ==> tree == old(tree) && nodes == old(nodes) && root == old(root)
      ensures x !in old(Elements()) ==> err == Pass && size == old(size) + 1
    {
      var oldsize := size;
      Insert(x);
      if oldsize == size {
        return Fail(ItemExists);
      }
      return Pass;
    }

    /** Go `Remove`: `delete`, then report a missing element when the size
        did not shrink. */
    method Remove(x: int) returns (err: Outcome)
      requires Valid()
      modifies this
      ensures Valid() && Elements() == old(Elements()) - {x}
      ensures x !in old(Elements()) ==> err == Fail(ItemNotFound) && size == old(size)
      ensures x !in old(Elements()) ==> tree == old(tree) && nodes == old(nodes) && root == old(root)
      ensures x in old(Elements()) ==> err == Pass && size == old(size) - 1
    {
      var oldsize := size;
      Delete(x);
      if oldsize == size {
        return Fail(ItemNotFound);
      }
      return Pass;
    }

    /** Go `Contains`: `get` finds a node. */
    method Contains(x: int) returns (b: bool)
      requires Valid()
      ensures b <==> x in Elements()
    {
      HangsLinks(tree, -1, nodes);
      var n := SearchTree.Get(root, LeftOf(nodes), RightOf(nodes), ElemOf(nodes), Plain(tree), x);
      b := n != -1;
    }

    /** Go `First`: the smallest element, or None (Go's nil) on an empty tree. */
    method First() returns (r: Option<int>)
      requires Valid()
      ensures r.None? <==> Elements() == {}
      ensures r.Some? ==> r.value in Elements() && forall k :: k in Elements() ==> r.value <= k
    {
      if root == -1 {
        return None;
      }
      HangsLinks(tree, -1, nodes);
      HangsIds(tree, -1, nodes);
      SearchTree.MinIsLeast(Plain(tree));
      var m := SearchTree.FindMin(root, LeftOf(nodes), RightOf(nodes), ElemOf(nodes), Plain(tree));
      assert m in Ids(tree);
      r := Some(nodes[m].elem);
    }

    /** Go `Last`: the largest element, or None (Go's nil) on an empty tree. */
    method Last() returns (r: Option<int>)
      requires Valid()
      ensures r.None? <==> Elements() == {}
      ensures r.Some? ==> r.value in Elements() && forall k :: k in Elements() ==> k <= r.value
    {
      if root == -1 {
        return None;
      }
      HangsLinks(tree, -1, nodes);
      HangsIds(tree, -1, nodes);
      SearchTree.MaxIsGreatest(Plain(tree));
      var m := SearchTree.FindMax(root, LeftOf(nodes), RightOf(nodes), ElemOf(nodes), Plain(tree));
      assert m in Ids(tree);
      r := Some(nodes[m].elem);
    }

    /** Go `InOrder`: the elements in increasing order. */
    method InOrder() returns (s: seq<int>)
      requires Valid()
      ensures s == RedBlack.InOrder(tree) && SearchTree.Increasing(s) && |s| == size
      ensures forall k :: k in s <==> k in Elements()
    {
      Traversal.InOrderSize(Plain(tree));
      HangsLinks(tree, -1, nodes);
      SearchTree.OrderedIffIncreasing(Plain(tree));
      SearchTree.KeysInOrder(Plain(tree));
      s := Traversal.InOrderWalk(root, LeftOf(nodes), RightOf(nodes), ElemOf(nodes), Plain(tree));
    }

    /** Go `PreOrder`: node, left subtree, right subtree. */
    method PreOrder() returns (s: seq<int>)
      requires Valid()
      ensures s == Traversal.PreOrder(Plain(tree))
      ensures multiset(s) == multiset(RedBlack.InOrder(tree))
    {
      Traversal.PreOrderPermutesInOrder(Plain(tree));
      if root == -1 {
        return [];
      }
      HangsLinks(tree, -1, nodes);
      s := Traversal.PreOrderWalk(root, LeftOf(nodes), RightOf(nodes), ElemOf(nodes), Plain(tree));
    }

    /** Go `PostOrder`: left subtree, right subtree, node. */
    method PostOrder() returns (s: seq<int>)
      requires Valid()
      ensures s == Traversal.PostOrder(Plain(tree))
      ensures multiset(s) == multiset(RedBlack.InOrder(tree))
    {
      Traversal.PostOrderPermutesInOrder(Plain(tree));
      if root == -1 {
        return [];
      }
      HangsLinks(tree, -1, nodes);
      s := Traversal.PostOrderWalk(root, LeftOf(nodes), RightOf(nodes), ElemOf(nodes), Plain(tree));
    }

    /** Go `LevelOrder`: breadth first, each level left to right. */
    method LevelOrder() returns (s: seq<int>)
      requires Valid()
      ensures s == Traversal.LevelOrder(Plain(tree))
      ensures multiset(s) == multiset(RedBlack.InOrder(tree))
    {
      Traversal.LevelOrderPermutesInOrder(Plain(tree));
      if root == -1 {
        return [];
      }
      HangsLinks(tree, -1, nodes);
      s := Traversal.LevelOrderWalk(root, LeftOf(nodes), RightOf(nodes), ElemOf(nodes), Plain(tree));
    }
  }

  /** Adding 10, 5 and 15 to a new tree, and 10 once more, leaves three
      elements that the in-order walk yields in increasing order, whatever
      shape the rebalancing gave the tree. */
  method AddThenInOrder() returns (s: seq<int>, again: Outcome, n: int)
    ensures s == [5, 10, 15] && again == Fail(ItemExists) && n == 3
  {
    var t := Filled();
    again := t.Add(10);
    assert t.Elements() == {5, 10, 15};
    n := t.Size();
    s := t.InOrder();
    InOrderOfThree(s, 5, 10, 15);
  }

  /** After adding 10, 5 and 15 to a new tree, the other three walks see 10 at
      the root with 5 and 15 below it, whatever rotations the insertions did. */
  method AddThenWalks() returns (pre: seq<int>, post: seq<int>, level: seq<int>)
    ensures pre == [10, 5, 15] && post == [5, 15, 10] && level == [10, 5, 15]
  {
    var t := Filled();
    var s := t.InOrder();
    InOrderOfThree(s, 5, 10, 15);
    ThreeKeys(t.tree);
    pre := t.PreOrder();
    post := t.PostOrder();
    level := t.LevelOrder();
    ThreeWalks(t.tree);
  }

  /** The pre-order, post-order and level-order of a three-key red-black tree. */
  lemma ThreeWalks(t: Tree)
    requires IsRedBlack(t) && RedBlack.InOrder(t) == [5, 10, 15]
    ensures Traversal.PreOrder(Plain(t)) == [10, 5, 15]
    ensures Traversal.PostOrder(Plain(t)) == [5, 15, 10]
    ensures Traversal.LevelOrder(Plain(t)) == [10, 5, 15]
  {
    ThreeKeys(t);
    assert Plain(t.left).left.Empty? && Plain(t.left).right.Empty?;
    assert Plain(t.right).left.Empty? && Plain(t.right).right.Empty?;
    assert Traversal.Three(Plain(t));
    Traversal.WalksOfThree(Plain(t));
  }

  /** A new tree after `Add(10)`, `Add(5)` and `Add(15)`. */
  method Filled() returns (t: RedBlackTree)
    ensures fresh(t) && t.Valid() && t.Elements() == {5, 10, 15}
  {
    t := new RedBlackTree();
    var _ := t.Add(10);
    var _ := t.Add(5);
    var _ := t.Add(15);
  }

  /** Three distinct keys have one increasing arrangement. */
  lemma InOrderOfThree(s: seq<int>, a: int, b: int, c: int)
    requires a < b < c
    requires SearchTree.Increasing(s) && forall k :: k in s <==> k in {a, b, c}
    ensures s == [a, b, c] && |{a, b, c}| == 3
  {
    SearchTree.IncreasingJoin([a], b, [c]);
    assert [a] + [b] + [c] == [a, b, c];
    SearchTree.IncreasingDetermined(s, [a, b, c]);
  }

  /** Go's `TestAdd`: 10, 20 and 30 added in increasing order make the tree
      rotate so that 20 is at the root; adding 20 a second time is refused and
      leaves three elements. */
  method AddRepeated() returns (again: Outcome, n: int, top: int)
    ensures again == Fail(ItemExists) && n == 3 && top == 20
  {
    var t := Climbing();
    again := t.Add(20);
    n := t.Size();
    var s := t.InOrder();
    InOrderOfThree(s, 10, 20, 30);
    MiddleAtRoot(t.tree, t.nodes, 10, 20, 30);
    top := t.nodes[t.root].elem;
  }

  /** A new tree given 10, 20 and 30 in increasing order. */
  method Climbing() returns (t: RedBlackTree)
    ensures fresh(t) && t.Valid() && t.Elements() == {10, 20, 30}
  {
    t := new RedBlackTree();
    var _ := t.Add(10);
    var _ := t.Add(20);
    var _ := t.Add(30);
  }

  /** In a red-black tree of three keys the middle one is at the root. */
  lemma MiddleAtRoot(t: Tree, nodes: seq<Cell>, a: int, b: int, c: int)
    requires IsRedBlack(t) && Hangs(t, -1, nodes) && RedBlack.InOrder(t) == [a, b, c]
    ensures 0 <= Id(t) < |nodes| && nodes[Id(t)].elem == b
  {
    ThreeKeys(t);
    assert RedBlack.InOrder(t) == RedBlack.InOrder(t.left) + [t.key] + RedBlack.InOrder(t.right);
    assert Plug(Top, t) == t;
    assert t.key == b by {
      assert RedBlack.InOrder(t)[1] == t.key;
    }
    Here(Top, t, nodes);
    assert Id(t) == t.id;
  }
}
