/** Search-tree order over the shapes of `Traversal`, and the three pointer
    walks that the binary search tree and the red-black tree share: `get`,
    `findMin` and `findMax` (the Go code is the same in both files). */
module SearchTree {
  import opened Traversal

  function Keys(t: Shape): set<int> {
    if t.Empty? then {} else Keys(t.left) + {t.key} + Keys(t.right)
  }

  /** Every key in a left subtree is smaller than its root's, every key in a
      right subtree larger: the order `less` keeps in both Go trees. */
  ghost predicate Ordered(t: Shape) {
    t.Node? ==>
      && (forall k :: k in Keys(t.left) ==> k < t.key)
      && (forall k :: k in Keys(t.right) ==> t.key < k)
      && Ordered(t.left) && Ordered(t.right)
  }

  ghost predicate Increasing(s: seq<int>) {
    forall i, j :: 0 <= i < j < |s| ==> s[i] < s[j]
  }

  lemma {:induction false} KeysInOrder(t: Shape)
    ensures forall k :: k in Keys(t) <==> k in InOrder(t)
  {
    if t.Node? {
      KeysInOrder(t.left);
      KeysInOrder(t.right);
    }
  }

  lemma IncreasingConcat(a: seq<int>, k: int, b: seq<int>)
    ensures Increasing(a + [k] + b) <==>
      && Increasing(a) && Increasing(b)
      && (forall x :: x in a ==> x < k) && (forall y :: y in b ==> k < y)
  {
    if Increasing(a) && Increasing(b) && (forall x :: x in a ==> x < k) && (forall y :: y in b ==> k < y) {
      IncreasingJoin(a, k, b);
    }
    if Increasing(a + [k] + b) {
      IncreasingSplit(a, k, b);
    }
  }

  /** Two increasing runs on either side of a key between them increase. */
  lemma IncreasingJoin(a: seq<int>, k: int, b: seq<int>)
    requires Increasing(a) && Increasing(b)
    requires (forall x :: x in a ==> x < k) && (forall y :: y in b ==> k < y)
    ensures Increasing(a + [k] + b)
  {
    var s := a + [k] + b;
    assert forall i :: 0 <= i < |a| ==> s[i] == a[i];
    assert s[|a|] == k;
    assert forall i :: 0 <= i < |b| ==> s[|a| + 1 + i] == b[i];
    forall i, j | 0 <= i < j < |s|
      ensures s[i] < s[j]
    {
      if j < |a| {
      } else if i < |a| {
        assert a[i] in a;
        if j > |a| {
          assert b[j - |a| - 1] in b;
        }
      } else if i == |a| {
        assert b[j - |a| - 1] in b;
      }
    }
  }

  /** An increasing sequence splits at any key into increasing runs below and
      above it. */
  lemma IncreasingSplit(a: seq<int>, k: int, b: seq<int>)
    requires Increasing(a + [k] + b)
    ensures Increasing(a) && Increasing(b)
    ensures (forall x :: x in a ==> x < k) && (forall y :: y in b ==> k < y)
  {
    var s := a + [k] + b;
    assert forall i :: 0 <= i < |a| ==> s[i] == a[i];
    assert s[|a|] == k;
    assert forall i :: 0 <= i < |b| ==> s[|a| + 1 + i] == b[i];
    forall x | x in a
      ensures x < k
    {
      var i :| 0 <= i < |a| && a[i] == x;
      assert s[i] < s[|a|];
    }
    forall y | y in b
      ensures k < y
    {
      var j :| 0 <= j < |b| && b[j] == y;
      assert s[|a|] < s[|a| + 1 + j];
    }
    forall i, j | 0 <= i < j < |b|
      ensures b[i] < b[j]
    {
      assert s[|a| + 1 + i] < s[|a| + 1 + j];
    }
  }

  /** An increasing sequence is fixed by the set of its elements: what an
      in-order walk of a search tree yields does not depend on its shape. */
  lemma {:induction false} IncreasingDetermined(s: seq<int>, t: seq<int>)
    requires Increasing(s) && Increasing(t) && (forall k :: k in s <==> k in t)
    ensures s == t
    decreases |s|
  {
    assert s != [] ==> s[0] in s;
    assert t != [] ==> t[0] in t;
    if s != [] && t != [] {
      var s', t' := s[1..], t[1..];
      assert s == [s[0]] + s' && t == [t[0]] + t';
      forall k | k in s
        ensures s[0] <= k
      {
        var i :| 0 <= i < |s| && s[i] == k;
      }
      forall k | k in t
        ensures t[0] <= k
      {
        var i :| 0 <= i < |t| && t[i] == k;
      }
      assert s[0] in t && t[0] in s;
      forall k | k in s'
        ensures s[0] < k
      {
        var i :| 0 <= i < |s'| && s'[i] == k;
        assert s[i + 1] == k;
      }
      forall k | k in t'
        ensures t[0] < k
      {
        var i :| 0 <= i < |t'| && t'[i] == k;
        assert t[i + 1] == k;
      }
      forall k
        ensures k in s' <==> k in t'
      {
        assert k in s' <==> k in s && k != s[0];
        assert k in t' <==> k in t && k != t[0];
      }
      IncreasingDetermined(s', t');
    }
  }

  /** A tree is ordered exactly when its in-order sequence strictly increases. */
  lemma {:induction false} OrderedIffIncreasing(t: Shape)
    ensures Ordered(t) <==> Increasing(InOrder(t))
  {
    if t.Node? {
      OrderedIffIncreasing(t.left);
      OrderedIffIncreasing(t.right);
      KeysInOrder(t.left);
      KeysInOrder(t.right);
      IncreasingConcat(InOrder(t.left), t.key, InOrder(t.right));
    }
  }

  /** An ordered tree holds no key twice, so it has as many keys as nodes. */
  lemma {:induction false} OrderedSize(t: Shape)
    requires Ordered(t)
    ensures |Keys(t)| == Size(t)
  {
    if t.Node? {
      OrderedSize(t.left);
      OrderedSize(t.right);
      forall k | k in Keys(t.left)
        ensures k !in Keys(t.right)
      {
        assert k < t.key;
      }
      assert t.key !in Keys(t.left) + Keys(t.right);
    }
  }

  /** The key of the leftmost node. */
  function Min(t: Shape): int
    requires t.Node?
  {
    if t.left.Empty? then t.key else Min(t.left)
  }

  /** The key of the rightmost node. */
  function Max(t: Shape): int
    requires t.Node?
  {
    if t.right.Empty? then t.key else Max(t.right)
  }

  lemma {:induction false} MinIsLeast(t: Shape)
    requires t.Node? && Ordered(t)
    ensures Min(t) in Keys(t)
    ensures forall k :: k in Keys(t) ==> Min(t) <= k
    ensures Min(t) == InOrder(t)[0]
  {
    if t.left.Node? {
      MinIsLeast(t.left);
    }
  }

  lemma {:induction false} MaxIsGreatest(t: Shape)
    requires t.Node? && Ordered(t)
    ensures Max(t) in Keys(t)
    ensures forall k :: k in Keys(t) ==> k <= Max(t)
    ensures Max(t) == InOrder(t)[|InOrder(t)| - 1]
  {
    if t.right.Node? {
      MaxIsGreatest(t.right);
    }
  }

  /** Go `get`: walk down from `root`, left when the query is smaller and right
      when it is larger, until a node neither smaller nor larger is met. */
  method Get(root: int, left: int -> int, right: int -> int, key: int -> int, ghost t: Shape, x: int)
    returns (n: int)
    requires Links(t, left, right, key) && Ordered(t) && root == RootOf(t)
    ensures n == -1 <==> x !in Keys(t)
    ensures n != -1 ==> n in Ids(t) && key(n) == x
  {
    n := root;
    ghost var sub := t;
    while n != -1
      invariant n == RootOf(sub) && Links(sub, left, right, key) && Ordered(sub)
      invariant Ids(sub) <= Ids(t)
      invariant x in Keys(t) <==> x in Keys(sub)
      decreases Size(sub)
    {
      if x < key(n) {
        n := left(n);
        sub := sub.left;
      } else if key(n) < x {
        n := right(n);
        sub := sub.right;
      } else {
        return;
      }
    }
  }

  /** Go `findMin`: follow `left` links to the leftmost node. */
  method FindMin(n: int, left: int -> int, right: int -> int, key: int -> int, ghost t: Shape)
    returns (m: int)
    requires t.Node? && Links(t, left, right, key) && n == t.id
    ensures m in Ids(t) && key(m) == Min(t) && left(m) == -1
  {
    m := n;
    ghost var sub := t;
    while left(m) != -1
      invariant sub.Node? && m == sub.id && Links(sub, left, right, key)
      invariant Ids(sub) <= Ids(t) && Min(sub) == Min(t)
      decreases Size(sub)
    {
      m := left(m);
      sub := sub.left;
    }
  }

  /** Go `findMax`: follow `right` links to the rightmost node. */
  method FindMax(n: int, left: int -> int, right: int -> int, key: int -> int, ghost t: Shape)
    returns (m: int)
    requires t.Node? && Links(t, left, right, key) && n == t.id
    ensures m in Ids(t) && key(m) == Max(t) && right(m) == -1
  {
    m := n;
    ghost var sub := t;
    while right(m) != -1
      invariant sub.Node? && m == sub.id && Links(sub, left, right, key)
      invariant Ids(sub) <= Ids(t) && Max(sub) == Max(t)
      decreases Size(sub)
    {
      m := right(m);
      sub := sub.right;
    }
  }
}
