/** The colour-level model of the Go red-black tree: a ghost tree whose nodes
    carry their arena id, key and colour, the five requirements the Go type
    promises, and, for each rebalancing step of insert and delete, the proof
    that it keeps the state it is called in. A node is addressed by a zipper:
    the whole tree is `Plug(c, s)`, where `s` is the subtree rooted at the node
    and the context `c` lists the nodes above it, nearest first. */
module RedBlack {
  import Traversal

  datatype Tree = Leaf | Branch(left: Tree, id: int, key: int, red: bool, right: Tree)

  /** The tree without its colours, as the shared traversals see it. */
  function Plain(t: Tree): Traversal.Shape {
    if t.Leaf? then Traversal.Empty else Traversal.Node(Plain(t.left), t.id, t.key, Plain(t.right))
  }

  function Id(t: Tree): int {
    if t.Leaf? then -1 else t.id
  }

  /** Go `isRed`: a nil leaf counts as black. */
  predicate IsRed(t: Tree) {
    t.Branch? && t.red
  }

  predicate LeftRed(t: Tree) {
    t.Branch? && IsRed(t.left)
  }

  predicate RightRed(t: Tree) {
    t.Branch? && IsRed(t.right)
  }

  function Ids(t: Tree): set<int> {
    Traversal.Ids(Plain(t))
  }

  function InOrder(t: Tree): seq<int> {
    Traversal.InOrder(Plain(t))
  }

  ghost predicate Unique(t: Tree) {
    Traversal.Distinct(Plain(t))
  }

  function Weight(red: bool): nat {
    if red then 0 else 1
  }

  /** The black nodes on the leftmost path from the root down to a leaf. */
  function Black(t: Tree): nat {
    if t.Leaf? then 0 else Black(t.left) + Weight(t.red)
  }

  /** Requirement 5: every path from a node down to a leaf meets as many black nodes. */
  ghost predicate Balanced(t: Tree) {
    t.Branch? ==> Black(t.left) == Black(t.right) && Balanced(t.left) && Balanced(t.right)
  }

  /** Requirement 4: both children of a red node are black. */
  ghost predicate RedOk(t: Tree) {
    t.Branch? ==> (t.red ==> !IsRed(t.left) && !IsRed(t.right)) && RedOk(t.left) && RedOk(t.right)
  }

  /** Requirements 1 to 5: the root is black, a red node has black children and
      all paths carry as many black nodes (nil leaves are black, colours are a bool). */
  ghost predicate IsRedBlack(t: Tree) {
    Balanced(t) && RedOk(t) && !IsRed(t)
  }

  lemma Unfold(t: Tree)
    requires t.Branch?
    ensures InOrder(t) == InOrder(t.left) + [t.key] + InOrder(t.right)
    ensures Ids(t) == Ids(t.left) + {t.id} + Ids(t.right)
  {
  }

  // Rotations, as Go's rotateLeft and rotateRight reshape a subtree.

  function LeftRotated(t: Tree): (r: Tree)
    requires t.Branch? && t.right.Branch?
    ensures InOrder(r) == InOrder(t) && Ids(r) == Ids(t)
    ensures r.Branch? && r.left.Branch? && r.id == t.right.id && r.left.id == t.id
  {
    var u := t.right;
    var r := Branch(Branch(t.left, t.id, t.key, t.red, u.left), u.id, u.key, u.red, u.right);
    Unfold(t); Unfold(u); Unfold(r); Unfold(r.left);
    r
  }

  function RightRotated(t: Tree): (r: Tree)
    requires t.Branch? && t.left.Branch?
    ensures InOrder(r) == InOrder(t) && Ids(r) == Ids(t)
    ensures r.Branch? && r.right.Branch? && r.id == t.left.id && r.right.id == t.id
  {
    var u := t.left;
    var r := Branch(u.left, u.id, u.key, u.red, Branch(u.right, t.id, t.key, t.red, t.right));
    Unfold(t); Unfold(u); Unfold(r); Unfold(r.right);
    r
  }

  // Zippers.

  datatype Ctx =
    | Top
    | InLeft(up: Ctx, id: int, key: int, red: bool, right: Tree)
    | InRight(up: Ctx, left: Tree, id: int, key: int, red: bool)

  /** The parent's subtree, with `s` in the hole. */
  function Up(c: Ctx, s: Tree): (r: Tree)
    requires !c.Top?
    ensures r.Branch? && r.id == c.id && r.key == c.key && r.red == c.red
  {
    if c.InLeft? then Branch(s, c.id, c.key, c.red, c.right) else Branch(c.left, c.id, c.key, c.red, s)
  }

  /** What a parent subtree's colour invariants say about the hole and its sibling. */
  lemma UpFacts(c: Ctx, s: Tree)
    requires !c.Top?
    ensures Balanced(Up(c, s)) <==> Balanced(s) && Balanced(Sib(c)) && Black(s) == Black(Sib(c))
    ensures Black(s) == Black(Sib(c)) ==> Black(Up(c, s)) == Black(s) + Weight(c.red)
    ensures RedOk(Up(c, s)) <==>
      RedOk(s) && RedOk(Sib(c)) && (c.red ==> !IsRed(s) && !IsRed(Sib(c)))
  {
  }

  function Plug(c: Ctx, s: Tree): Tree
    decreases c
  {
    if c.Top? then s else Plug(c.up, Up(c, s))
  }

  function Depth(c: Ctx): nat {
    if c.Top? then 0 else 1 + Depth(c.up)
  }

  /** The id of the hole's parent, -1 (`nil`) at the root. */
  function ParentId(c: Ctx): int {
    if c.Top? then -1 else c.id
  }

  /** The hole's sibling subtree. */
  function Sib(c: Ctx): Tree
    requires !c.Top?
  {
    if c.InLeft? then c.right else c.left
  }

  /** The frame of `c`, on the same side, with a new context above, colour and sibling. */
  function Reframe(c: Ctx, up: Ctx, red: bool, u: Tree): (r: Ctx)
    requires !c.Top?
    ensures !r.Top? && r.up == up && r.id == c.id && r.key == c.key && r.red == red
    ensures Sib(r) == u && (r.InLeft? <==> c.InLeft?)
  {
    if c.InLeft? then InLeft(up, c.id, c.key, red, u) else InRight(up, u, c.id, c.key, red)
  }

  function CtxIds(c: Ctx): set<int> {
    if c.Top? then {} else CtxIds(c.up) + {c.id} + Ids(Sib(c))
  }

  /** The keys that come before the hole in order, and those after it. */
  function Before(c: Ctx): seq<int> {
    if c.Top? then [] else if c.InLeft? then Before(c.up) else Before(c.up) + InOrder(c.left) + [c.key]
  }

  function After(c: Ctx): seq<int> {
    if c.Top? then [] else if c.InLeft? then [c.key] + InOrder(c.right) + After(c.up) else After(c.up)
  }

  /** Requirement 5 around a hole whose subtree has `h` black nodes per path,
      one fewer than its sibling's when `short`. */
  ghost predicate CtxBal(c: Ctx, h: nat, short: bool)
    decreases c
  {
    !c.Top? ==>
      && Balanced(Sib(c))
      && h + (if short then 1 else 0) == Black(Sib(c))
      && CtxBal(c.up, Black(Sib(c)) + Weight(c.red), false)
  }

  /** Requirement 4 around a hole whose root is red when `hr`. */
  ghost predicate CtxRedOk(c: Ctx, hr: bool)
    decreases c
  {
    !c.Top? ==>
      && RedOk(Sib(c))
      && (c.red ==> !hr && !IsRed(Sib(c)))
      && CtxRedOk(c.up, c.red)
  }

  /** The root, if it is above the hole, is black. */
  predicate RootBlackAbove(c: Ctx)
    decreases c
  {
    !c.Top? ==> if c.up.Top? then !c.red else RootBlackAbove(c.up)
  }

  lemma {:induction false} PlugInOrder(c: Ctx, s: Tree)
    ensures InOrder(Plug(c, s)) == Before(c) + InOrder(s) + After(c)
    decreases c
  {
    if !c.Top? {
      PlugInOrder(c.up, Up(c, s));
    }
  }

  lemma {:induction false} PlugIds(c: Ctx, s: Tree)
    ensures Ids(Plug(c, s)) == CtxIds(c) + Ids(s)
    decreases c
  {
    if !c.Top? {
      PlugIds(c.up, Up(c, s));
    }
  }

  /** Ids that are unique in the whole tree are unique in the hole and apart from the context. */
  lemma {:induction false} PlugUnique(c: Ctx, s: Tree)
    requires Unique(Plug(c, s))
    ensures Unique(s) && CtxIds(c) !! Ids(s)
    decreases c
  {
    if !c.Top? {
      PlugUnique(c.up, Up(c, s));
      PlugIds(c.up, Up(c, s));
    }
  }

  lemma {:induction false} PlugBalanced(c: Ctx, s: Tree)
    ensures Balanced(Plug(c, s)) <==> Balanced(s) && CtxBal(c, Black(s), false)
    decreases c
  {
    if !c.Top? {
      PlugBalanced(c.up, Up(c, s));
    }
  }

  lemma {:induction false} PlugRedOk(c: Ctx, s: Tree)
    ensures RedOk(Plug(c, s)) <==> RedOk(s) && CtxRedOk(c, IsRed(s))
    decreases c
  {
    if !c.Top? {
      PlugRedOk(c.up, Up(c, s));
    }
  }

  lemma {:induction false} PlugRootRed(c: Ctx, s: Tree)
    requires !c.Top?
    ensures IsRed(Plug(c, s)) <==> !RootBlackAbove(c)
    decreases c
  {
    if !c.up.Top? {
      PlugRootRed(c.up, Up(c, s));
    }
  }

  /** Two subtrees with the same keys in order and the same ids make, in the
      same context, trees with the same keys in order and the same ids. */
  ghost predicate Same(a: Tree, b: Tree) {
    InOrder(a) == InOrder(b) && Ids(a) == Ids(b)
  }

  lemma PlugSame(c: Ctx, a: Tree, b: Tree)
    requires Same(a, b)
    ensures Same(Plug(c, a), Plug(c, b))
  {
    PlugInOrder(c, a);
    PlugInOrder(c, b);
    PlugIds(c, a);
    PlugIds(c, b);
  }

  /** Ids are distinct exactly when there are as many of them as nodes. */
  lemma {:induction false} DistinctCount(t: Traversal.Shape)
    ensures Traversal.Distinct(t) <==> |Traversal.Ids(t)| == Traversal.Size(t)
  {
    if t.Node? {
      DistinctCount(t.left);
      DistinctCount(t.right);
      var l, r := Traversal.Ids(t.left), Traversal.Ids(t.right);
      IdsBound(t.left);
      IdsBound(t.right);
      assert |l + r| <= |l| + |r|;
      assert |l + r + {t.id}| <= |l + r| + 1;
      if |Traversal.Ids(t)| == Traversal.Size(t) {
        assert |l + r| == |l| + |r|;
        assert l !! r;
        assert t.id !in l + r;
      }
    }
  }

  lemma {:induction false} IdsBound(t: Traversal.Shape)
    ensures |Traversal.Ids(t)| <= Traversal.Size(t)
  {
    if t.Node? {
      IdsBound(t.left);
      IdsBound(t.right);
      var l, r := Traversal.Ids(t.left), Traversal.Ids(t.right);
      assert |l + r| <= |l| + |r|;
      assert |l + r + {t.id}| <= |l + r| + 1;
    }
  }

  /** Rebalancing keeps ids unique, since it keeps the ids and the number of nodes. */
  lemma SameUnique(a: Tree, b: Tree)
    requires Same(a, b) && Unique(a)
    ensures Unique(b)
  {
    DistinctCount(Plain(a));
    DistinctCount(Plain(b));
    Traversal.InOrderSize(Plain(a));
    Traversal.InOrderSize(Plain(b));
  }

  /** Filling a hole with a subtree of fresh, unique ids keeps the ids unique. */
  lemma PlugDistinct(c: Ctx, s: Tree, t: Tree)
    requires Unique(Plug(c, s)) && Unique(t) && CtxIds(c) !! Ids(t)
    ensures Unique(Plug(c, t))
  {
    PlugUnique(c, s);
    PlugIds(c, s);
    PlugIds(c, t);
    PlugInOrder(c, s);
    PlugInOrder(c, t);
    DistinctCount(Plain(Plug(c, s)));
    DistinctCount(Plain(Plug(c, t)));
    DistinctCount(Plain(s));
    DistinctCount(Plain(t));
    Traversal.InOrderSize(Plain(Plug(c, s)));
    Traversal.InOrderSize(Plain(Plug(c, t)));
    Traversal.InOrderSize(Plain(s));
    Traversal.InOrderSize(Plain(t));
  }

  /** The context of the hole's sibling, the hole holding `s`. */
  function SibCtx(c: Ctx, s: Tree): (r: Ctx)
    requires !c.Top?
    ensures !r.Top? && r.up == c.up && r.id == c.id && Up(r, Sib(c)) == Up(c, s)
    ensures Plug(r, Sib(c)) == Plug(c, s)
  {
    if c.InLeft? then InRight(c.up, s, c.id, c.key, c.red) else InLeft(c.up, c.id, c.key, c.red, s)
  }

  // Insert. insertCase1 is called with the node n and the tree Plug(c, s), s
  // rooted at n: n is red, the tree is balanced, the one red-red edge allowed
  // is the one into n, and the root may be red only if it is n.

  ghost predicate InsertState(c: Ctx, s: Tree) {
    && s.Branch? && s.red && Balanced(s) && RedOk(s)
    && CtxBal(c, Black(s), false) && CtxRedOk(c, false) && RootBlackAbove(c)
  }

  /** insert hangs a new red node in a leaf's place. */
  lemma InsertLeaf(c: Ctx, z: int, x: int)
    requires IsRedBlack(Plug(c, Leaf))
    ensures InsertState(c, Branch(Leaf, z, x, true, Leaf))
  {
    PlugBalanced(c, Leaf);
    PlugRedOk(c, Leaf);
    if !c.Top? {
      PlugRootRed(c, Leaf);
    }
  }

  /** insertCase2: a black parent leaves a valid tree. */
  lemma InsertUnderBlack(c: Ctx, s: Tree)
    requires InsertState(c, s) && !c.Top? && !c.red
    ensures IsRedBlack(Plug(c, s))
  {
    PlugBalanced(c, s);
    PlugRedOk(c, s);
    PlugRootRed(c, s);
  }

  /** A red parent is not the root, so the grandparent exists, and it is black. */
  lemma InsertGrandparent(c: Ctx, s: Tree)
    requires InsertState(c, s) && !c.Top? && c.red
    ensures !c.up.Top? && !c.up.red
  {
    assert CtxRedOk(c.up, true);
    assert RootBlackAbove(c);
  }

  /** The grandparent's subtree after insertCase3 repaints parent, uncle and grandparent. */
  function Recoloured(c: Ctx, s: Tree): Tree
    requires !c.Top? && !c.up.Top? && Sib(c.up).Branch?
  {
    Up(Reframe(c.up, c.up.up, true, Sib(c.up).(red := false)), Up(Reframe(c, c.up, false, Sib(c)), s))
  }

  /** insertCase3: with a red uncle, the repainted grandparent is the new n. */
  lemma InsertRecolour(c: Ctx, s: Tree)
    requires InsertState(c, s) && !c.Top? && c.red && !c.up.Top? && IsRed(Sib(c.up))
    ensures InsertState(c.up.up, Recoloured(c, s))
    ensures Plain(Plug(c.up.up, Recoloured(c, s))) == Plain(Plug(c, s))
  {
    var q, u := Sib(c), Sib(c.up);
    assert CtxBal(c.up, Black(q), false);
    assert CtxRedOk(c.up, true);
    var pc := Reframe(c, c.up, false, q);
    var p := Up(pc, s);
    UpFacts(pc, s);
    var u' := u.(red := false);
    var gc := Reframe(c.up, c.up.up, true, u');
    UpFacts(gc, p);
    assert RootBlackAbove(c.up);
    PlainPlug(c.up.up, Up(c.up, Up(c, s)), Recoloured(c, s));
  }

  lemma {:induction false} PlainPlug(c: Ctx, a: Tree, b: Tree)
    requires Plain(a) == Plain(b)
    ensures Plain(Plug(c, a)) == Plain(Plug(c, b))
    decreases c
  {
    if !c.Top? {
      PlainPlug(c.up, Up(c, a), Up(c, b));
    }
  }

  ghost predicate OuterReady(c: Ctx, s: Tree) {
    && InsertState(c, s) && !c.Top? && c.red && !c.up.Top? && !IsRed(Sib(c.up))
    && (c.InLeft? <==> c.up.InLeft?)
  }

  /** The context and subtree of the old parent once insertCase4 rotates n above it. */
  function TurnedCtx(c: Ctx, s: Tree): Ctx
    requires !c.Top? && s.Branch?
  {
    if c.InRight? then InLeft(c.up, s.id, s.key, s.red, s.right)
    else InRight(c.up, s.left, s.id, s.key, s.red)
  }

  function TurnedSub(c: Ctx, s: Tree): Tree
    requires !c.Top? && s.Branch?
  {
    if c.InRight? then Branch(c.left, c.id, c.key, c.red, s.left)
    else Branch(s.right, c.id, c.key, c.red, c.right)
  }

  /** insertCase4: an inner n is rotated above its parent, which becomes an
      outer grandchild ready for insertCase5. */
  lemma InsertTurn(c: Ctx, s: Tree)
    requires InsertState(c, s) && !c.Top? && c.red && !c.up.Top? && !IsRed(Sib(c.up))
    requires c.InLeft? != c.up.InLeft?
    ensures OuterReady(TurnedCtx(c, s), TurnedSub(c, s))
    ensures Up(TurnedCtx(c, s), TurnedSub(c, s))
         == if c.InRight? then LeftRotated(Up(c, s)) else RightRotated(Up(c, s))
  {
  }

  /** The grandparent's subtree after insertCase5 repaints and rotates it. */
  function Straightened(c: Ctx, s: Tree): Tree
    requires !c.Top? && !c.up.Top?
    requires c.InLeft? ==> c.up.InLeft?
    requires c.InRight? ==> c.up.InRight?
  {
    var g := Up(Reframe(c.up, c.up.up, true, Sib(c.up)), Up(Reframe(c, c.up, false, Sib(c)), s));
    if c.InLeft? then RightRotated(g) else LeftRotated(g)
  }

  /** insertCase5: the rotation at the grandparent leaves a red-black tree. */
  lemma InsertStraighten(c: Ctx, s: Tree)
    requires OuterReady(c, s)
    ensures IsRedBlack(Plug(c.up.up, Straightened(c, s)))
    ensures Same(Plug(c.up.up, Straightened(c, s)), Plug(c, s))
  {
    var g := Up(c.up, Up(c, s));
    var r := Straightened(c, s);
    var q, u := Sib(c), Sib(c.up);
    assert CtxBal(c.up, Black(q), false);
    assert CtxRedOk(c.up, true);
    UpFacts(c, s);
    UpFacts(c.up, Up(c, s));
    var inner := if c.InLeft? then Branch(q, c.up.id, c.up.key, true, u) else Branch(u, c.up.id, c.up.key, true, q);
    assert r == (if c.InLeft? then Branch(s, c.id, c.key, false, inner) else Branch(inner, c.id, c.key, false, s));
    assert Black(inner) == Black(s);
    assert Black(r) == Black(g);
    assert !IsRed(r) && Balanced(r) && RedOk(r);
    PlugBalanced(c.up.up, r);
    PlugRedOk(c.up.up, r);
    if !c.up.up.Top? {
      PlugRootRed(c.up.up, r);
      PlugRootRed(c, s);
    }
    var g' := Up(Reframe(c.up, c.up.up, true, Sib(c.up)), Up(Reframe(c, c.up, false, Sib(c)), s));
    PlainPlug(Top, g, g');
    assert Same(g, g');
    assert Same(g, r);
    PlugSame(c.up.up, g, r);
  }

  // Delete. deleteCase1 is called with a node x and the tree Plug(c, s), s
  // rooted at x, where every path through x is one black node short (the node
  // being removed counts for none) and x's parent may be red whatever x is.

  /** Two contexts with the same keys before and after the hole. */
  predicate SamePlace(c: Ctx, d: Ctx) {
    Before(c) == Before(d) && After(c) == After(d)
  }

  /** The subtree that takes the place of a node with at most one child, as
      Go `delete` picks it: the left one when there is no right one. */
  function Child(s: Tree): Tree
    requires s.Branch?
  {
    if s.right.Leaf? then s.left else s.right
  }

  /** What deleteCase1 to deleteCase6 spend: a step up, or a step from a black
      parent to the red one deleteCase2 puts above x. */
  function DeleteRank(c: Ctx): nat {
    2 * Depth(c) + (if !c.Top? && c.red then 0 else 3)
  }

  ghost predicate DeleteState(c: Ctx, h: nat) {
    CtxBal(c, h, true) && CtxRedOk(c, false)
  }

  /** Done: the paths through x are no longer short and x's parent is black. */
  ghost predicate DeleteDone(c: Ctx, h: nat) {
    CtxBal(c, h, false) && CtxRedOk(c, false) && (c.Top? || !c.red)
  }

  /** x's context after deleteCase2 repaints its red sibling and rotates it above the parent. */
  function Raised(c: Ctx): Ctx
    requires !c.Top? && Sib(c).Branch?
  {
    var u := Sib(c);
    if c.InLeft? then InLeft(InLeft(c.up, u.id, u.key, false, u.right), c.id, c.key, true, u.left)
    else InRight(InRight(c.up, u.left, u.id, u.key, false), u.right, c.id, c.key, true)
  }

  /** deleteCase2: a red sibling is rotated above the parent; x keeps its
      deficit, now under a red parent and with a black sibling. */
  lemma DeleteRaise(c: Ctx, h: nat, s: Tree)
    requires DeleteState(c, h) && !c.Top? && IsRed(Sib(c))
    ensures !c.red
    ensures DeleteState(Raised(c), h) && Raised(c).red && !IsRed(Sib(Raised(c)))
    ensures Depth(Raised(c)) == Depth(c) + 1 && SamePlace(Raised(c), c)
    ensures Same(Plug(Raised(c), s), Plug(c, s))
  {
    var u := Sib(c);
    assert CtxBal(c.up, Black(u) + Weight(c.red), false);
    assert CtxRedOk(c.up, c.red);
    assert !c.red;
    assert Black(u.left) == h + 1 == Black(u.right);
    var mid := Raised(c).up;
    assert CtxBal(mid, h + 1, false);
    assert CtxRedOk(mid, true);
    var p := Up(Reframe(c, c.up, true, u.(red := false)), s);
    var r := if c.InLeft? then LeftRotated(p) else RightRotated(p);
    assert Plug(Raised(c), s) == Plug(c.up, r);
    PlainPlug(Top, Up(c, s), p);
    PlugSame(c.up, Up(c, s), r);
  }

  /** deleteCase3: with parent, sibling and nephews black, the sibling turns
      red and the deficit moves up to the parent. */
  lemma DeletePushUp(c: Ctx, h: nat)
    requires DeleteState(c, h) && !c.Top? && !c.red && !IsRed(Sib(c))
    requires !LeftRed(Sib(c)) && !RightRed(Sib(c))
    ensures Sib(c).Branch? && DeleteState(c.up, h + 1)
  {
    assert CtxBal(c.up, Black(Sib(c)) + 1, false);
    assert CtxRedOk(c.up, false);
  }

  /** ... and once the parent's deficit is settled, x's is too. */
  lemma DeletePushedUp(c: Ctx, h: nat, c': Ctx)
    requires DeleteState(c, h) && !c.Top? && !c.red && !IsRed(Sib(c))
    requires !LeftRed(Sib(c)) && !RightRed(Sib(c))
    requires DeleteDone(c', h + 1) && SamePlace(c', c.up)
    ensures Sib(c).Branch? && DeleteDone(Reframe(c, c', false, Sib(c).(red := true)), h)
    ensures SamePlace(Reframe(c, c', false, Sib(c).(red := true)), c)
  {
    var u := Sib(c);
    assert Black(u.left) == h == Black(u.right);
    assert Black(u.(red := true)) == h;
  }

  /** deleteCase4: a red parent with black sibling and nephews swaps colours
      with the sibling, which settles the deficit. */
  lemma DeleteSwap(c: Ctx, h: nat)
    requires DeleteState(c, h) && !c.Top? && c.red && !IsRed(Sib(c))
    requires !LeftRed(Sib(c)) && !RightRed(Sib(c))
    ensures Sib(c).Branch? && DeleteDone(Reframe(c, c.up, false, Sib(c).(red := true)), h)
    ensures SamePlace(Reframe(c, c.up, false, Sib(c).(red := true)), c)
  {
    var u := Sib(c);
    assert CtxBal(c.up, Black(u), false);
    assert CtxRedOk(c.up, true);
    assert Black(u.left) == h == Black(u.right);
    assert Black(u.(red := true)) == h;
  }

  /** The sibling after deleteCase5 rotates its red near child above it. */
  function Twisted(c: Ctx): Tree
    requires !c.Top?
    requires c.InLeft? ==> LeftRed(Sib(c))
    requires c.InRight? ==> RightRed(Sib(c))
  {
    var u := Sib(c);
    if c.InLeft? then RightRotated(u.(red := true, left := u.left.(red := false)))
    else LeftRotated(u.(red := true, right := u.right.(red := false)))
  }

  /** deleteCase5: a red near nephew with a black far one is rotated into the
      sibling's place, so that the far nephew is red. */
  lemma DeleteTwist(c: Ctx, h: nat)
    requires DeleteState(c, h) && !c.Top? && !IsRed(Sib(c))
    requires c.InLeft? ==> LeftRed(Sib(c)) && !RightRed(Sib(c))
    requires c.InRight? ==> RightRed(Sib(c)) && !LeftRed(Sib(c))
    ensures DeleteState(Reframe(c, c.up, c.red, Twisted(c)), h) && !IsRed(Twisted(c))
    ensures c.InLeft? ==> RightRed(Twisted(c))
    ensures c.InRight? ==> LeftRed(Twisted(c))
    ensures Same(Twisted(c), Sib(c)) && SamePlace(Reframe(c, c.up, c.red, Twisted(c)), c)
  {
    var u := Sib(c);
    assert CtxBal(c.up, Black(u) + Weight(c.red), false);
    assert CtxRedOk(c.up, c.red);
    var t := Twisted(c);
    if c.InLeft? {
      var a := u.left;
      assert Balanced(a);
      assert Black(a) == h == Black(a.left) == Black(a.right) == Black(u.right);
      var x := u.(red := true, left := a.(red := false));
      assert Plain(x) == Plain(u);
      assert t == Branch(a.left, a.id, a.key, false, Branch(a.right, u.id, u.key, true, u.right));
      assert RedOk(a) && Balanced(t) && RedOk(t);
    } else {
      var a := u.right;
      assert Balanced(a);
      assert Black(a) == h == Black(a.left) == Black(a.right) == Black(u.left);
      var x := u.(red := true, right := a.(red := false));
      assert Plain(x) == Plain(u);
      assert t == Branch(Branch(u.left, u.id, u.key, true, a.left), a.id, a.key, false, a.right);
      assert RedOk(a) && Balanced(t) && RedOk(t);
    }
    assert Black(t) == h + 1;
  }

  /** x's context after deleteCase6 repaints and rotates the sibling above the parent. */
  function Settled(c: Ctx): Ctx
    requires !c.Top?
    requires c.InLeft? ==> RightRed(Sib(c))
    requires c.InRight? ==> LeftRed(Sib(c))
  {
    var u := Sib(c);
    if c.InLeft? then InLeft(InLeft(c.up, u.id, u.key, c.red, u.right.(red := false)), c.id, c.key, false, u.left)
    else InRight(InRight(c.up, u.left.(red := false), u.id, u.key, c.red), u.right, c.id, c.key, false)
  }

  /** deleteCase6: with a black sibling whose far child is red, the rotation at
      the parent settles the deficit. */
  lemma DeleteSettle(c: Ctx, h: nat, s: Tree)
    requires DeleteState(c, h) && !c.Top? && !IsRed(Sib(c))
    requires c.InLeft? ==> RightRed(Sib(c))
    requires c.InRight? ==> LeftRed(Sib(c))
    ensures DeleteDone(Settled(c), h)
    ensures Same(Plug(Settled(c), s), Plug(c, s))
  {
    var u := Sib(c);
    assert CtxBal(c.up, Black(u) + Weight(c.red), false);
    assert CtxRedOk(c.up, c.red);
    var mid := Settled(c).up;
    var p := Up(c, s);
    var r := Up(mid, Up(Settled(c), s));
    if c.InLeft? {
      assert Balanced(u.right);
      assert Black(u.left) == h == Black(u.right.left) == Black(u.right.right);
      var u' := u.(red := c.red, right := u.right.(red := false));
      assert Plain(u') == Plain(u);
      var y := Up(Reframe(c, c.up, false, u'), s);
      assert Plain(y) == Plain(p);
      assert r == LeftRotated(y);
    } else {
      assert Balanced(u.left);
      assert Black(u.right) == h == Black(u.left.left) == Black(u.left.right);
      var u' := u.(red := c.red, left := u.left.(red := false));
      assert Plain(u') == Plain(u);
      var y := Up(Reframe(c, c.up, false, u'), s);
      assert Plain(y) == Plain(p);
      assert r == RightRotated(y);
    }
    assert Balanced(Sib(mid)) && Black(Sib(mid)) == h + 1;
    assert CtxBal(mid, h + 1, false);
    assert RedOk(u.left) && RedOk(u.right) && RedOk(Sib(mid));
    assert CtxRedOk(mid, false);
    PlugSame(c.up, p, r);
  }

  /** deleteCase6 keeps the keys on either side of x. */
  lemma SettledPlace(c: Ctx)
    requires !c.Top?
    requires c.InLeft? ==> RightRed(Sib(c))
    requires c.InRight? ==> LeftRed(Sib(c))
    ensures SamePlace(Settled(c), c)
  {
    var u := Sib(c);
    Unfold(u);
  }

  /** Go `delete` on a node with at most one child: a black node leaves its
      paths one black node short, and its child is nil or a red node with
      nil children; a red node has no child at all, and taking it out keeps
      requirements 4 and 5. */
  lemma DeleteStart(c: Ctx, s: Tree)
    requires IsRedBlack(Plug(c, s)) && s.Branch? && (s.left.Leaf? || s.right.Leaf?)
    ensures Black(Child(s)) == 0 && Balanced(Child(s)) && RedOk(Child(s))
    ensures !s.red ==> DeleteState(c, 0)
    ensures s.red ==> Child(s).Leaf? && Balanced(Plug(c, Leaf)) && RedOk(Plug(c, Leaf))
  {
    PlugBalanced(c, s);
    PlugRedOk(c, s);
    if s.red {
      PlugBalanced(c, Leaf);
      PlugRedOk(c, Leaf);
      assert CtxRedOk(c, false);
    }
  }

  /** Once deleteCase1 is done, the child of the removed node fits the hole:
      Go's replaceNode leaves requirements 4 and 5 holding. */
  lemma DeleteFinish(c: Ctx, h: nat, t: Tree)
    requires DeleteDone(c, 0) && Black(t) == 0 && Balanced(t) && RedOk(t)
    ensures Balanced(Plug(c, t)) && RedOk(Plug(c, t))
  {
    PlugBalanced(c, t);
    PlugRedOk(c, t);
    if !c.Top? {
      assert CtxRedOk(c, IsRed(t));
    }
  }

  /** Go `delete` ends by painting a red root black. */
  lemma Blackened(t: Tree)
    requires Balanced(t) && RedOk(t) && t.Branch?
    ensures IsRedBlack(t.(red := false))
  {
  }

  /** A tree with no keys has no black nodes; a valid red-black subtree with
      two keys has at least one, because a red root would need a red child. */
  lemma SmallBlack(u: Tree)
    ensures |InOrder(u)| == 0 ==> Black(u) == 0
    ensures Balanced(u) && RedOk(u) && |InOrder(u)| == 2 ==> Black(u) > 0
  {
    if u.Branch? {
      Unfold(u);
      if u.left.Branch? {
        Unfold(u.left);
      }
      if u.right.Branch? {
        Unfold(u.right);
      }
    }
  }

  /** A tree with one key is a single node between two leaves. */
  lemma OneKey(u: Tree)
    requires |InOrder(u)| == 1
    ensures u.Branch? && u.left.Leaf? && u.right.Leaf?
  {
    if u.Branch? {
      Unfold(u);
      if u.left.Branch? {
        Unfold(u.left);
      }
      if u.right.Branch? {
        Unfold(u.right);
      }
    }
  }

  /** A red-black tree holding three keys is a root with one key on each side:
      a chain of three would either put a red node under a red node or give
      its paths different numbers of black nodes. */
  lemma ThreeKeys(t: Tree)
    requires IsRedBlack(t) && |InOrder(t)| == 3
    ensures t.Branch? && |InOrder(t.left)| == 1 && |InOrder(t.right)| == 1
    ensures t.Branch? && t.left.Branch? && t.left.left.Leaf? && t.left.right.Leaf?
    ensures t.Branch? && t.right.Branch? && t.right.left.Leaf? && t.right.right.Leaf?
  {
    assert t.Branch?;
    Unfold(t);
    SmallBlack(t.left);
    SmallBlack(t.right);
    OneKey(t.left);
    OneKey(t.right);
  }
}
