# goods containers in Dafny

A model of the five sequential containers of the Go package collection `goods`:

- a self-balancing red-black tree (`redblacktree`);
- an unbalanced binary search tree (`binarytree`);
- a doubly linked list (`linkedlist`);
- a FIFO queue and a LIFO stack built on that list (`queue`, `stack`).

Each is modelled in the form the Go code has: a class whose methods update
its fields, loops with invariants, and the four tree walks driven by an
explicit stack or queue. Elements are `int` ordered by `<`.

- `wrappers.dfy`: `Option` for Go's `nil` element results, and `Outcome` for
  Go's `error` results, with the four error messages as `Error` values.
- `linkedlist.dfy`: module `LinkedList`.
  - Heap `Node` objects carry `value`, `next` and `prev`.
  - `LinkedList` keeps `first`, `last` and `size`.
  - The ghost `chain` lists the nodes in order and `Contents` their values.
  - `Valid()` holds the link invariant: the ends are null, `prev` and `next`
    agree, the nodes are distinct and `size` is the length.
  - Every public method states its result and the new `Contents`.
- `queue.dfy`, `stack.dfy`: modules `Queue` and `Stack`. Each wraps a list the
  way the Go struct embeds one; `Contents()` is the list's.
- `traversal.dfy`: module `Traversal`, the four walks. Both Go trees share the
  same code, so they share this module.
  - A walk reads the tree through `left`, `right` and `key` functions, with
    `-1` for nil.
  - Each is proved equal to the recursive order over the ghost `Shape`.
- `searchtree.dfy`: module `SearchTree`.
  - Search-tree order (`Ordered`) and the keys of a shape.
  - The shared pointer loops `get`, `findMin` and `findMax`.
  - Lemmas tying order to an increasing in-order sequence.
- `binarytree.dfy`: module `BinaryTree`.
  - The nodes live in an arena `nodes: seq<Cell>` indexed by int, with `-1`
    for nil.
  - The ghost `tree: Shape` is what the reachable cells form.
  - `Inserted` and `Deleted` are reference definitions of `insert` and node
    `remove` on shapes. `Add`/`Remove` are proved to produce them, and the
    lemmas prove what they do to the key set, order and size.
- `redblack.dfy`: module `RedBlack`, the colour-level model.
  - A ghost `Tree` whose nodes carry id, key and colour.
  - The five requirements of the Go type as `IsRedBlack`.
  - A zipper `Ctx`: `Plug(c, s)` is the whole tree with subtree `s` at the
    place `c` describes.
  - For each insert and delete fix-up case, a lemma about the state it is
    entered in and the state it leaves.
- `redblacktree.dfy`: module `RedBlackTree`.
  - The arena of `Cell`s holds element, children, parent and colour.
  - `Hangs` says the arena stores the ghost tree with its parent links.
  - The rotations, `replaceNode`, `insert`/`insertCase1-5` and
    `delete`/`deleteCase1-6` are methods that rewrite the arena.
  - Each is proved to keep the ghost tree stored and to move it as the
    `RedBlack` lemmas describe.
  - `Add` and `Remove` are proved to keep a valid red-black search tree whose
    element set gains or loses exactly the given element.

The behaviour followed is the Go code's, in three places where its comments
say otherwise:

- The doc comments of the binary tree's `InOrder` and `PreOrder` list the
  wrong visiting orders. The model does what the code does: left, root,
  right for `InOrder`, and root, left, right for `PreOrder`.
- The red-black tree's `deleteCase5`/`deleteCase6` comments speak of the
  node's children. The code tests the sibling's children, and the model
  follows the code.
- Requirement 3 ("all leaves are the same color as the root") is read as
  nil leaves counting as black, as `isRed` does.

## Model

| member | source | states |
|---|---|---|
| LinkedList.IndexOf | linkedlist/linkedlist.go:108-117 | the position of the first occurrence of `v`, or -1 exactly when `v` does not occur |
| LinkedList.IndexOfUnique | linkedlist/linkedlist.go:108-117 | the first occurrence is the only position with no earlier `v`, so the walk's answer is determined |
| LinkedList.LinkedList.constructor | linkedlist/linkedlist.go:36-38 | a new list is valid and empty |
| LinkedList.LinkedList.Size | linkedlist/linkedlist.go:41-46 | returns the number of elements |
| LinkedList.LinkedList.Empty | linkedlist/linkedlist.go:54-56 | true exactly when the list has no elements |
| LinkedList.LinkedList.AddFirst | linkedlist/linkedlist.go:60-74 | the contents become `[v] + old`, links stay valid (first and last both set on an empty list) |
| LinkedList.LinkedList.AddLast | linkedlist/linkedlist.go:78-91 | the contents become `old + [v]`, links stay valid |
| LinkedList.LinkedList.Contains | linkedlist/linkedlist.go:95-104 | true exactly when some element equals `v` |
| LinkedList.LinkedList.Index | linkedlist/linkedlist.go:108-117 | the position of the first `v`, or -1 |
| LinkedList.LinkedList.Get | linkedlist/linkedlist.go:120-129 | element `i` for `0 <= i < size`, `None` (Go nil) past the end or on an empty list |
| LinkedList.LinkedList.Set | linkedlist/linkedlist.go:132-141 | in range: only element `i` changes, `Pass`; otherwise `IndexOutOfBound` and nothing changes |
| LinkedList.LinkedList.First | linkedlist/linkedlist.go:144-152 | the first element, `None` when empty |
| LinkedList.LinkedList.Last | linkedlist/linkedlist.go:155-164 | the last element, `None` when empty |
| LinkedList.LinkedList.RemoveFirst | linkedlist/linkedlist.go:168-178 | `ListEmpty` on an empty list, else the first element is dropped |
| LinkedList.LinkedList.RemoveLast | linkedlist/linkedlist.go:182-192 | `ListEmpty` on an empty list, else the last element is dropped |
| LinkedList.LinkedList.Remove | linkedlist/linkedlist.go:196-207 | `ItemNotFound` and no change when absent, else exactly the first occurrence is removed |
| LinkedList.LinkedList.FastRemove | linkedlist/linkedlist.go:211-222 | `ItemNotFound` and no change when absent, else one occurrence of `v` is removed |
| LinkedList.LinkedList.ToSlice | linkedlist/linkedlist.go:236-248 | the walk from `first` yields exactly the contents |
| LinkedList.FromSlice | linkedlist/linkedlist.go:251-260 | repeated `AddLast` builds a valid list whose contents are the slice |
| LinkedList.SliceRoundTrip | linkedlist/linkedlist_test.go:196-216 | `ToSlice(FromSlice(s)) == s` for every `s` |
| LinkedList.LinkedList.Conc | linkedlist/linkedlist.go:264-281 | the contents become `old L + other`, size is the sum, no change when `other` is empty; an empty list may be concatenated with itself |
| LinkedList.LinkedList.Adopt | linkedlist/linkedlist.go:268-272 | an empty list takes over `other`'s chain, first, last and size |
| LinkedList.ConcSlices | linkedlist/linkedlist.go:264-281 | lists built from `s` and `u` and concatenated read back as `s + u` |
| LinkedList.ConcSelfEmpty | linkedlist/linkedlist.go:268-272 | `L.Conc(L)` on an empty list leaves it valid and empty |
| LinkedList.LinkedList.Link | linkedlist/linkedlist.go:277-280 | two non-empty chains joined last-to-first keep the link invariant |
| LinkedList.LinkedList.SlowGet | linkedlist/linkedlist.go:319-326 | the node at the first occurrence of `v`, null when absent |
| LinkedList.LinkedList.FastGet | linkedlist/linkedlist.go:330-372 | null exactly when `v` is absent, else some node holding `v` |
| LinkedList.LinkedList.GetNode | linkedlist/linkedlist.go:375-395 | node `i` of the chain for `0 <= i < size`, else `IndexOutOfBound` and null |
| LinkedList.LinkedList.RemoveNode | linkedlist/linkedlist.go:399-430 | exactly node `k` leaves the chain and its value the contents; links stay valid |
| LinkedList.LinkedList.EndsOfChain | linkedlist/linkedlist.go:399-430 | in a valid list `prev` is null only at the first node and `next` only at the last, which is how `removeNode` tells its cases apart |
| LinkedList.LinkedList.UnlinkOnly | linkedlist/linkedlist.go:402-408 | removing the only node leaves an empty valid list |
| LinkedList.LinkedList.UnlinkFirst | linkedlist/linkedlist.go:411-416 | removing the first of several nodes drops element 0 |
| LinkedList.LinkedList.UnlinkLast | linkedlist/linkedlist.go:419-424 | removing the last of several nodes drops the last element |
| LinkedList.LinkedList.UnlinkMiddle | linkedlist/linkedlist.go:427-429 | bridging the neighbours drops exactly element `k` |
| Queue.Queue.constructor | queue/queue.go:22-24 | a new queue is valid and empty |
| Queue.Queue.Empty | queue/queue.go:10-12 | true exactly when nothing is queued |
| Queue.Queue.Offer | queue/queue.go:30-32 | the value joins the back |
| Queue.Queue.Poll | queue/queue.go:40-48 | `None` and no change when empty, else the front element, which is removed |
| Queue.Queue.Peek | queue/queue.go:56-62 | the front element without removing it, `None` when empty |
| Queue.Queue.Enqueue | queue/queue.go:65 | the same new state as `Offer` |
| Queue.Queue.Dequeue | queue/queue.go:68 | the same result and new state as `Poll` |
| Queue.FirstInFirstOut | queue/queue_test.go:18-30 | after offering a, b, c, polls return a, b, c and then `None` |
| Queue.Offered | queue/queue_test.go:7-16 | offering a, b, c to a new queue leaves `[a, b, c]` |
| Stack.Stack.constructor | stack/stack.go:22-24 | a new stack is valid and empty |
| Stack.Stack.Empty | stack/stack.go:10-12 | true exactly when nothing is stacked |
| Stack.Stack.Push | stack/stack.go:30-32 | the value goes on top (the list front) |
| Stack.Stack.Pop | stack/stack.go:39-47 | `None` and no change when empty, else the top element, which is removed |
| Stack.Stack.Peek | stack/stack.go:55-61 | the top element without removing it, `None` when empty |
| Stack.LastInFirstOut | stack/stack_test.go:18-27 | after pushing a, b, c, pops return c, b, a and then `None` |
| Stack.Pushed | stack/stack_test.go:7-16 | pushing a, b, c onto a new stack leaves `[c, b, a]` |
| Traversal.InOrderWalk | binarytree/binarytree.go:112-137 | the stack-driven walk yields exactly the recursive in-order sequence |
| Traversal.PreOrderWalk | binarytree/binarytree.go:144-171 | the stack-driven walk yields exactly root, left subtree, right subtree |
| Traversal.PostOrderWalk | binarytree/binarytree.go:178-214 | the stack walk steered by `prev` yields exactly left subtree, right subtree, root |
| Traversal.LevelOrderWalk | binarytree/binarytree.go:218-245 | the queue-driven walk yields the keys level by level, left to right |
| Traversal.QueueOrderIsLevels | binarytree/binarytree.go:218-245 | draining a queue of subtrees gives the level-by-level order of the forest |
| Traversal.InOrderSize | redblacktree/redblacktree.go:159-184 | in-order has one entry per node |
| Traversal.PreOrderPermutesInOrder | binarytree/binarytree.go:144-171 | pre-order visits the same multiset of keys as in-order |
| Traversal.PostOrderPermutesInOrder | binarytree/binarytree.go:178-214 | post-order visits the same multiset of keys as in-order |
| Traversal.LevelOrderPermutesInOrder | binarytree/binarytree.go:218-245 | level order visits the same multiset of keys as in-order |
| Traversal.WalksOfThree | redblacktree/redblacktree_test.go:121-219 | for a root with one child on each side, the four walks give the orders the tests expect |
| SearchTree.KeysInOrder | binarytree/binarytree.go:112-137 | the keys of a tree are exactly the entries of its in-order sequence |
| SearchTree.OrderedIffIncreasing | binarytree/binarytree.go:265-294 | a shape is in search order exactly when its in-order sequence strictly increases |
| SearchTree.OrderedSize | binarytree/binarytree.go:44-46 | in an ordered tree the node count equals the number of distinct keys |
| SearchTree.IncreasingDetermined | redblacktree/redblacktree_test.go:121-144 | two strictly increasing sequences with the same members are equal |
| SearchTree.MinIsLeast | binarytree/binarytree.go:355-361 | the leftmost key is the least key and the first in-order entry |
| SearchTree.MaxIsGreatest | binarytree/binarytree.go:365-371 | the rightmost key is the greatest key and the last in-order entry |
| SearchTree.Get | redblacktree/redblacktree.go:327-340 | the search loop returns nil exactly when the key is absent, else a node holding it |
| SearchTree.FindMin | redblacktree/redblacktree.go:640-646 | following left links ends at the node with the least key, which has no left child |
| SearchTree.FindMax | redblacktree/redblacktree.go:630-636 | following right links ends at the node with the greatest key, which has no right child |
| BinaryTree.InsertedKeys | binarytree/binarytree.go:265-294 | insert adds exactly `x` to the key set, keeps search order, and changes nothing when `x` is present |
| BinaryTree.InsertedIds | binarytree/binarytree.go:265-294 | the new node's id is the only new id |
| BinaryTree.DeletedKeys | binarytree/binarytree.go:319-351 | node remove takes exactly `x` out of the key set and keeps search order; size drops by one exactly when `x` was present |
| BinaryTree.MinReplaces | binarytree/binarytree.go:333-335 | a two-child node that takes the right subtree's minimum, with that minimum removed below, holds the old keys minus its own, in order |
| BinaryTree.DeletedIds | binarytree/binarytree.go:319-351 | remove introduces no ids and keeps a non-matching root |
| BinaryTree.AttachedStores | binarytree/binarytree.go:273-293 | linking a new cell at the first nil slot on the search path stores the inserted shape |
| BinaryTree.DescendedLeft | binarytree/binarytree.go:320-325 | removing in the left subtree and relinking it stores the removed shape |
| BinaryTree.DescendedRight | binarytree/binarytree.go:326-331 | removing in the right subtree and relinking it stores the removed shape |
| BinaryTree.ReplacedByMin | binarytree/binarytree.go:333-335 | copying the right minimum up and removing it below stores the removed shape |
| BinaryTree.Unlinked | binarytree/binarytree.go:336-347 | pointing the parent at the only child, or nil, stores the removed shape |
| BinaryTree.BinaryTree.constructor | binarytree/binarytree.go:38-41 | a new tree is valid and empty |
| BinaryTree.BinaryTree.Size | binarytree/binarytree.go:44-46 | returns the number of elements |
| BinaryTree.BinaryTree.Empty | binarytree/binarytree.go:49-51 | true exactly when no element is stored |
| BinaryTree.BinaryTree.Add | binarytree/binarytree.go:54-61 | the set gains `x`; `ItemExists` with size unchanged when present, else `Pass` and size + 1 |
| BinaryTree.BinaryTree.Insert | binarytree/binarytree.go:265-294 | the arena now stores the inserted shape, and `size` counts it |
| BinaryTree.BinaryTree.Remove | binarytree/binarytree.go:64-72 | the set loses `x`; `ItemNotFound` with size unchanged when absent, else `Pass` and size - 1 |
| BinaryTree.BinaryTree.Delete | binarytree/binarytree.go:297-312 | removes `x` through a dummy parent when it is at the root; true exactly when `x` was present |
| BinaryTree.BinaryTree.DeleteBelow | binarytree/binarytree.go:319-351 | the recursive remove stores the removed subtree, touches only that subtree and the parent, and relinks the parent to the new subtree root |
| BinaryTree.BinaryTree.Contains | binarytree/binarytree.go:76-78 | true exactly when `x` is stored |
| BinaryTree.BinaryTree.First | binarytree/binarytree.go:81-86 | the least element, `None` when empty |
| BinaryTree.BinaryTree.Last | binarytree/binarytree.go:89-94 | the greatest element, `None` when empty |
| BinaryTree.BinaryTree.InOrder | binarytree/binarytree.go:112-137 | the elements, once each, strictly increasing, `size` of them |
| BinaryTree.BinaryTree.PreOrder | binarytree/binarytree.go:144-171 | root, left, right order, a permutation of the elements |
| BinaryTree.BinaryTree.PostOrder | binarytree/binarytree.go:178-214 | left, right, root order, a permutation of the elements |
| BinaryTree.BinaryTree.LevelOrder | binarytree/binarytree.go:218-245 | breadth-first order, a permutation of the elements |
| BinaryTree.AddThenWalks | binarytree/binarytree.go:54-61 | after adding 10, 5, 15 the walks give [5,10,15], [10,5,15], [5,15,10], [10,5,15], and adding 10 again fails |
| BinaryTree.Filled | binarytree/binarytree.go:265-294 | 10, 5, 15 added to a new tree give 10 at the root, 5 left, 15 right |
| RedBlack.LeftRotated | redblacktree/redblacktree.go:355-364 | a left rotation keeps the in-order sequence and ids and lifts the right child |
| RedBlack.RightRotated | redblacktree/redblacktree.go:379-388 | a right rotation keeps the in-order sequence and ids and lifts the left child |
| RedBlack.PlugInOrder | redblacktree/redblacktree.go:159-184 | the in-order sequence of a plugged tree is what lies left of the place, the subtree, and what lies right |
| RedBlack.PlugBalanced | redblacktree/redblacktree.go:21-22 | requirement 5 holds for the whole tree exactly when it holds for the subtree and along the path above it |
| RedBlack.PlugRedOk | redblacktree/redblacktree.go:20 | requirement 4 holds for the whole tree exactly when it holds in the subtree and along the path above it |
| RedBlack.InsertLeaf | redblacktree/redblacktree.go:410-442 | a red node hung on a nil slot of a red-black tree leaves at most the parent-child red violation |
| RedBlack.InsertUnderBlack | redblacktree/redblacktree.go:455-462 | under a black parent the tree is already red-black |
| RedBlack.InsertGrandparent | redblacktree/redblacktree.go:466-475 | a red parent is not the root, so the grandparent exists and is black |
| RedBlack.InsertRecolour | redblacktree/redblacktree.go:466-475 | repainting parent and uncle black and grandparent red moves the violation up to the grandparent |
| RedBlack.InsertTurn | redblacktree/redblacktree.go:480-489 | rotating an inner node outwards gives the outer case with the same in-order |
| RedBlack.InsertStraighten | redblacktree/redblacktree.go:494-503 | repainting and rotating at the grandparent restores all requirements with the same in-order |
| RedBlack.DeleteStart | redblacktree/redblacktree.go:520-530 | removing a black node with at most one child starts the fix-up one black short; a red one needs none |
| RedBlack.DeleteRaise | redblacktree/redblacktree.go:551-562 | with a red sibling, repainting and rotating at the parent gives a black sibling under a red parent |
| RedBlack.DeletePushUp | redblacktree/redblacktree.go:566-576 | with parent, sibling and nephews black, repainting the sibling red moves the deficit to the parent |
| RedBlack.DeletePushedUp | redblacktree/redblacktree.go:566-576 | once the parent's deficit is repaired, the node's is too |
| RedBlack.DeleteSwap | redblacktree/redblacktree.go:580-590 | with a red parent and black sibling and nephews, swapping their colours repairs the deficit |
| RedBlack.DeleteTwist | redblacktree/redblacktree.go:594-611 | rotating the sibling so its red child points outwards keeps the state and the in-order |
| RedBlack.DeleteSettle | redblacktree/redblacktree.go:615-626 | repainting and rotating at the parent repairs the deficit with the same in-order |
| RedBlack.DeleteFinish | redblacktree/redblacktree.go:531 | splicing the child into a repaired place gives requirements 4 and 5 |
| RedBlack.SmallBlack | redblacktree/redblacktree.go:20-22 | a valid subtree with two keys has a black node on every path |
| RedBlack.ThreeKeys | redblacktree/redblacktree.go:16-22 | a red-black tree with three keys is a root with one key on each side |
| RedBlackTree.Family | redblacktree/redblacktree.go:649-675 | `SiblingAt`, `UncleAt` and `GrandparentAt`, which model Go's `sibling`, `uncle` and `grandparent` on the arena, give the ids the ghost tree puts there |
| RedBlackTree.Orphan | redblacktree/redblacktree.go:649-675 | `sibling`, `uncle` and `grandparent` are nil at the root; `uncle` and `grandparent` are nil just below it |
| RedBlackTree.HangsRoot | redblacktree/redblacktree.go:319-324 | `IsRedAt`, which models Go's `isRed` on the arena, agrees with the colour of the ghost tree, nil counting as black |
| RedBlackTree.LeftRotationHangs | redblacktree/redblacktree.go:355-364 | `LeftRotation`, the six pointer writes of `rotateLeft` (with `replaceNode`), stores the left-rotated tree with correct parent links |
| RedBlackTree.RightRotationHangs | redblacktree/redblacktree.go:379-388 | `RightRotation`, the six pointer writes of `rotateRight` (with `replaceNode`), stores the right-rotated tree with correct parent links |
| RedBlackTree.Spliced | redblacktree/redblacktree.go:392-405 | `Replaced`, which models Go's `replaceNode` on the arena, applied to a node with at most one child and that child, stores the tree without the node |
| RedBlackTree.AttachedOrder | redblacktree/redblacktree.go:416-437 | hanging `x` at the nil slot the search ends on keeps search order and adds exactly `x` |
| RedBlackTree.Predecessor | redblacktree/redblacktree.go:514-518 | the predecessor is the maximum of the left subtree, no smaller than any key there; copying it into the node leaves it twice, side by side, in the in-order |
| RedBlackTree.Position | redblacktree/redblacktree.go:508-512 | the node `get` finds is a place in the ghost tree whose in-order splits around `x` |
| RedBlackTree.Detached | redblacktree/redblacktree.go:507-538 | dropping `x` from the in-order of a search tree keeps order and removes exactly `x` from the keys |
| RedBlackTree.RedBlackTree.constructor | redblacktree/redblacktree.go:57-60 | a new tree is valid and empty |
| RedBlackTree.RedBlackTree.Paint | redblacktree/redblacktree.go:446-452 | a colour write changes only that node's colour |
| RedBlackTree.RedBlackTree.ReplaceNode | redblacktree/redblacktree.go:392-405 | the arena becomes `Replaced(...)`: the parent's link (or the root when there is no parent) now names `now`, which takes over the parent |
| RedBlackTree.RedBlackTree.RotateLeft | redblacktree/redblacktree.go:355-364 | the arena stores the tree with the subtree rotated left; in-order and colours unchanged |
| RedBlackTree.RedBlackTree.RotateRight | redblacktree/redblacktree.go:379-388 | the arena stores the tree with the subtree rotated right; in-order and colours unchanged |
| RedBlackTree.RedBlackTree.Walk | redblacktree/redblacktree.go:416-436 | the insert loop ends on the node holding `x`, or on the nil slot where search order puts it |
| RedBlackTree.RedBlackTree.Hang | redblacktree/redblacktree.go:410-440 | an absent `x` hangs as a new red leaf at that slot; a present one changes nothing |
| RedBlackTree.RedBlackTree.Insert | redblacktree/redblacktree.go:410-442 | the tree stays a valid red-black search tree, the set gains `x`, size grows by one exactly when `x` was absent, and a present `x` leaves tree, arena and root unchanged |
| RedBlackTree.RedBlackTree.InsertCase1 | redblacktree/redblacktree.go:446-452 | entered with at most the new node's red violation, leaves a red-black tree with the same in-order |
| RedBlackTree.RedBlackTree.InsertCase2 | redblacktree/redblacktree.go:455-462 | the same, below the root |
| RedBlackTree.RedBlackTree.InsertCase3 | redblacktree/redblacktree.go:466-475 | the same, under a red parent, recolouring and recursing on the grandparent |
| RedBlackTree.RedBlackTree.InsertCase4 | redblacktree/redblacktree.go:480-489 | the same, with a black uncle, after turning an inner node outwards |
| RedBlackTree.RedBlackTree.InsertCase5 | redblacktree/redblacktree.go:494-503 | the outer case ends in a red-black tree with the same in-order |
| RedBlackTree.RedBlackTree.DeleteCase1 | redblacktree/redblacktree.go:542-548 | entered one black short at the node, leaves that place repaired with the same in-order |
| RedBlackTree.RedBlackTree.DeleteCase2 | redblacktree/redblacktree.go:551-562 | the same below the root, first making a red sibling black |
| RedBlackTree.RedBlackTree.DeleteCase3 | redblacktree/redblacktree.go:566-576 | the same with a black sibling, pushing the deficit up when everything around is black |
| RedBlackTree.RedBlackTree.DeleteCase4 | redblacktree/redblacktree.go:580-590 | the same, swapping colours with a red parent |
| RedBlackTree.RedBlackTree.DeleteCase5 | redblacktree/redblacktree.go:594-611 | the same, turning the sibling when only its inner child is red |
| RedBlackTree.RedBlackTree.Twist | redblacktree/redblacktree.go:595-609 | the sibling rotation leaves the sibling's outer child red and the in-order unchanged |
| RedBlackTree.RedBlackTree.DeleteCase6 | redblacktree/redblacktree.go:615-626 | the final rotation repairs the deficit with the same in-order |
| RedBlackTree.RedBlackTree.Delete | redblacktree/redblacktree.go:507-538 | the tree stays a valid red-black search tree, the set loses `x`, size drops exactly when `x` was present, and nothing changes when it was not |
| RedBlackTree.RedBlackTree.CopyPredecessor | redblacktree/redblacktree.go:514-518 | node `d` now holds `v`, the greatest key of its old left subtree, and nothing else in the arena changes; the deletion moves to the predecessor, another node holding `v` with no right child |
| RedBlackTree.RedBlackTree.Rekey | redblacktree/redblacktree.go:516 | only that node's element changes |
| RedBlackTree.RedBlackTree.Rebalance | redblacktree/redblacktree.go:527-530 | after the fix-up, splicing the node out leaves requirements 4 and 5 |
| RedBlackTree.RedBlackTree.Unlink | redblacktree/redblacktree.go:520-537 | the node leaves the in-order, the tree stays red-black, size drops by one |
| RedBlackTree.RedBlackTree.BlackenRoot | redblacktree/redblacktree.go:533-535 | a red root painted black gives requirement 2 without breaking 4 and 5 |
| RedBlackTree.RedBlackTree.Size | redblacktree/redblacktree.go:66-68 | returns the number of elements |
| RedBlackTree.RedBlackTree.Empty | redblacktree/redblacktree.go:75-77 | true exactly when no element is stored |
| RedBlackTree.RedBlackTree.Add | redblacktree/redblacktree.go:84-91 | the set gains `x`; `ItemExists` with tree, arena, root and size unchanged when present, else `Pass` and size + 1 |
| RedBlackTree.RedBlackTree.Remove | redblacktree/redblacktree.go:98-105 | the set loses `x`; `ItemNotFound` with nodes and root unchanged when absent, else `Pass` and size - 1 |
| RedBlackTree.RedBlackTree.Contains | redblacktree/redblacktree.go:113-115 | true exactly when `x` is stored |
| RedBlackTree.RedBlackTree.First | redblacktree/redblacktree.go:121-126 | the least element, `None` when empty |
| RedBlackTree.RedBlackTree.Last | redblacktree/redblacktree.go:132-137 | the greatest element, `None` when empty |
| RedBlackTree.RedBlackTree.InOrder | redblacktree/redblacktree.go:159-184 | the elements, once each, strictly increasing, `Size` of them |
| RedBlackTree.RedBlackTree.PreOrder | redblacktree/redblacktree.go:194-222 | root, left, right order, a permutation of the elements |
| RedBlackTree.RedBlackTree.PostOrder | redblacktree/redblacktree.go:232-268 | left, right, root order, a permutation of the elements |
| RedBlackTree.RedBlackTree.LevelOrder | redblacktree/redblacktree.go:275-302 | breadth-first order, a permutation of the elements |
| RedBlackTree.AddThenInOrder | redblacktree/redblacktree_test.go:121-144 | adding 10, 5, 15 gives in-order [5,10,15]; adding 10 again fails with `ItemExists` and leaves size 3 |
| RedBlackTree.AddRepeated | redblacktree/redblacktree_test.go:42-53 | adding 10, 20, 30 then 20 again fails with `ItemExists`, leaves size 3, and the rotation has put 20 at the root |
| RedBlackTree.Climbing | redblacktree/redblacktree_test.go:45-47 | adding 10, 20, 30 to a new tree gives a valid tree holding exactly those three |
| RedBlackTree.MiddleAtRoot | redblacktree/redblacktree.go:16-22 | the root of any red-black tree with in-order [a,b,c] holds `b` |
| RedBlackTree.AddThenWalks | redblacktree/redblacktree_test.go:146-219 | after adding 10, 5, 15, whatever the rebalancing did, pre-, post- and level order are [10,5,15], [5,15,10], [10,5,15] |
| RedBlackTree.ThreeWalks | redblacktree/redblacktree_test.go:146-219 | a red-black tree with in-order [5,10,15] has those three walks |
| RedBlackTree.InOrderOfThree | redblacktree/redblacktree_test.go:121-144 | for `a < b < c`, the only increasing sequence of those three keys is [a,b,c] |

## Left out

- Goroutines and channels. The traversals and `Iter` deliver elements over
  a channel from a goroutine. Each walk is modelled as a method returning
  the sequence the channel would carry. `Iter`/`iter` are covered by
  `ToSlice`.
- The linked list's `sync.RWMutex` locking: concurrency plumbing with no
  effect on a single thread.
- LinkedList.LinkedList.FastGet: from 1000 elements up, Go scans both halves
  in two goroutines and returns whichever match arrives first. The model
  runs the two scans one after the other and promises only some node holding
  `v`, which is all a caller can rely on. `FastRemove` inherits this.
- `Serialize`/`Deserialize` (`encoding/gob`): foreign encoding code.
  `FromSlice` takes a sequence, not a `reflect` value of any slice type.
- `PrintTree`/`print`: console output only.
- `Depth`/`Height`: floating-point `math.Log2` of the size.
- `Len`: the same as `Size`.
- `ex_linkedlist.go`: a demo program that prints.
- Element type and `LessFunc`: Go stores `interface{}` values and compares
  them with a user function. The model fixes `int` and `<`. So "equal"
  means identical, and `binarytree.go`'s use of `==` at lines 274 and 301
  agrees with its `less` tests.
- RedBlackTree.RedBlackTree.Hang: Go overwrites an equal element in place
  (`n.elem = newn.elem`). With `int` elements the written value is the one
  already there, so the model leaves the node unchanged.
- LinkedList.LinkedList.GetNode: requires `0 <= i` on a non-empty list. For
  a negative index Go walks `next` past the last node and dereferences nil.
  On an empty list Go returns the out-of-bound error, and so does the model.
- LinkedList.LinkedList.Get: the same requirement, since it calls `getNode`.
- LinkedList.LinkedList.Set: the same requirement, since it calls `getNode`.
- LinkedList.LinkedList.Conc: after the call, `other`'s nodes are also
  linked into `L` and `other.first.prev` is no longer nil. The model does
  not state that `other` is still valid, because it is not. Later use of
  `other` is left out.
- LinkedList.LinkedList.Conc: requires the two lists to own disjoint nodes,
  except that an empty list may be concatenated with itself (a no-op in Go,
  linkedlist.go:268-272). Go also accepts `L.Conc(L)` on a non-empty list:
  it sets `L.last.next = L.first` and doubles `size` (277-280), making the
  chain a cycle that no valid list describes. Lists sharing nodes are
  excluded for the same reason. Neither case is modelled.
- Queue and Stack embed the whole list in Go, so `Size`, `First`, `Last` and
  the rest are available on them too. The model wraps the list as a field,
  gives each adaptor the operations its own file defines, and reaches the
  rest through `Contents()`.
- The walks keep their stack or queue of nodes as a sequence of node ids.
  A push puts the id at the front, a pop takes the front, and an offer
  appends at the back, exactly as `Stack.Push`/`Pop` and
  `Queue.Offer`/`Poll` are proved to do. Heap `Stack`/`Queue` objects are
  not used, which keeps each walk's frame to the tree's arena.
- Nodes live in an arena of cells rather than on the heap. Removed cells,
  and the binary tree's dummy root cell, stay in the arena unreachable, as
  Go's would until collected. The model does not capture aliasing of node
  pointers held outside the tree; Go never hands them out.
- RedBlackTree.RedBlackTree.Add: states the element set, size and validity,
  not the exact shape the rebalancing produces. The shapes after small
  inserts are derived from validity (`ThreeKeys`).
- RedBlackTree.RedBlackTree.Remove: states the element set, size, validity
  and the error, not the shape that the predecessor copy and the fix-up
  produce. So the doc example at redblacktree.go:96, where removing 2 from
  (2 (1) (3)) leaves 1 at the root with 3 on its right, is not derived: a
  red-black tree with keys 1 and 3 may have either at its root. The
  predecessor step alone is stated exactly by `CopyPredecessor`: the node
  keeps its place and takes the greatest key of its left subtree.
