# GenericJavaTree in Dafny

This project models the two classes of GenericJavaTree:

- `Queue<E>`, a singly linked first-in-first-out queue.
- `Tree<E>`, a general ordered tree. It is built and inspected through a single cursor `p`, and `toArrayList` lists its nodes breadth-first by draining a `Queue`.

Four files:

- `wrappers.dfy` (module `Wrappers`): `Option` and `Result`.
- `queue.dfy` (module `Queues`): the linked queue as a Dafny class over heap `Node` cells. The ghost fields `spine` and `contents` are the chain of cells and the elements they hold. Every method is specified against `contents`.
- `traversal.dfy` (module `Traversal`): the tree shape and what breadth-first order means.
  - Node `i` has the ordered child list `kids[i]`, and node 0 is the root. `WellFormed(kids, origin)` says this arena really is a tree; the ghost `origin[c]` is the node under which `c` was created.
  - `Level(kids, d)` lists the nodes at depth `d`, left to right.
  - `LevelOrder(kids)` is the levels concatenated. It is the independent reference definition of breadth-first order.
  - `Walk` describes an intermediate state of a queue-driven traversal: the output so far, and a queue holding the rest of the current level followed by the children already queued.
- `tree.dfy` (module `Trees`): the `Tree` class, the queue-driven traversal, and a worked example.

Nodes are never removed, so a `Tree` keeps its nodes in an arena. Each field is a sequence indexed by node id:

- `elem[i]` is the element of node `i`.
- `kids[i]` is its ordered child list.
- `par[i]` is its Java `parent` field.

A Java `Node` reference becomes a node id. A thrown exception becomes a `Failure` of `Result<E, TreeError>`. A Java `null` result becomes `None`, and `numChildren` keeps its `-1`.

The Java code never assigns a node's `parent` field. The model keeps that: `par` holds only `None`, and `Valid()` states it. So `parent()` is always absent and `isRoot()` always holds. The source's own comments say otherwise: `Node` holds "a pointer to it's parent node" (Tree.java:11-12), and `parent()` "returns null if the node is the root" (Tree.java:128), implying a non-null parent elsewhere. The model follows the code, not the comments. It also keeps the code's guard in `setPosition` (Tree.java:92), which tests the cursor rather than the root; that failure is the `InvalidArgument` error, after the code's message "Invalid Argument".

## Model

| member | source | states |
|---|---|---|
| Queues.Node.constructor | Queue.java:12-16 | a new cell holds the given element, which never changes, and starts unlinked |
| Queues.Queue.constructor | Queue.java:19-21 | a new queue is valid, empty and owns only fresh objects |
| Queues.Queue.Enqueue | Queue.java:23-40 | returns its argument; the element goes to the back (`contents` grows by exactly `[x]`) and the size rises by one, in both the empty and non-empty branch; the chain stays valid |
| Queues.Queue.Dequeue | Queue.java:42-56 | on an empty queue returns `None` and changes nothing; otherwise returns the front element and removes exactly it, decreasing the size by one |
| Queues.Queue.First | Queue.java:58-68 | absent exactly when the queue is empty; otherwise the front element, with nothing removed |
| Queues.Queue.Size | Queue.java:70-77 | the counter equals the number of queued elements |
| Queues.Queue.IsEmpty | Queue.java:79-86 | true exactly when nothing is queued, equivalently when the size is 0 |
| Queues.EnqueueAllThenDrain | Queue.java:29-55 | FIFO law: enqueueing any sequence into a new queue and dequeuing until empty yields the same sequence in the same order, and one more dequeue yields nothing |
| Trees.Tree.constructor | Tree.java:58-60 | a new tree is valid, has no nodes, no root and no cursor |
| Trees.Tree.AddRoot | Tree.java:77-83 | on a rootless tree creates the single root node holding `x`, puts the cursor on it, sets the size to 1 and returns `x`; otherwise fails with RootAlreadyExists and changes nothing |
| Trees.Tree.SetPosition | Tree.java:92-97 | with no cursor fails with InvalidArgument and leaves the cursor alone; otherwise moves the cursor to `node` and returns that node's element; the tree stays valid |
| Trees.Tree.AddChild | Tree.java:106-109 | returns `x`; a new node holding `x` becomes the last child of the cursor node and has no children, the size rises by one, and the cursor and root stay put |
| Trees.Tree.Graft | Tree.java:106-107 | creating one node under the cursor appends exactly that id to the cursor's child list and keeps the arena a tree |
| Trees.Tree.AddChildren | Tree.java:118-122 | the size rises by `|xs|`; the elements of `xs` become new nodes, in order, appended as the last children of the cursor node; with no cursor an empty `xs` changes nothing else; the cursor and root stay put |
| Trees.Tree.Root | Tree.java:62-69 | absent exactly when the tree is empty; otherwise a node of the tree that is nobody's child |
| Trees.Tree.Parent | Tree.java:132-135 | always absent, because no `parent` field is ever assigned |
| Trees.Tree.Children | Tree.java:144 | the cursor's child list holds exactly the nodes created under the cursor, each once, in the order they were added (ids rise along the list) |
| Trees.Tree.NumChildren | Tree.java:153-157 | -1 exactly when the tree is empty; otherwise the length of the cursor's child list |
| Trees.Tree.IsInternal | Tree.java:167 | true exactly when there is a cursor and some node was created under it |
| Trees.Tree.IsExternal | Tree.java:176 | true exactly when there is a cursor and no node was created under it |
| Trees.Tree.IsRoot | Tree.java:185-189 | always true: on an empty tree by the first branch, otherwise because the cursor's `parent` is never set |
| Trees.Tree.Size | Tree.java:198 | the counter equals the number of nodes |
| Trees.Tree.IsEmpty | Tree.java:207 | true exactly when there is no root, equivalently when there is no cursor |
| Trees.Tree.ToArrayList | Tree.java:217-230 | an empty tree yields an empty list and keeps the cursor; otherwise the list is the level order, starts at the root, holds every node exactly once (one entry per node), never lists a node before a shallower one, and the cursor ends on the last node listed |
| Trees.Tree.Positions | Tree.java:242-247 | the same listing and cursor effect as `toArrayList` |
| Trees.BreadthFirst | Tree.java:220-229 | draining a queue seeded with the root, while queueing each served node's children, outputs exactly `LevelOrder`; it also hands back the last node served |
| Trees.EnqueueChildren | Tree.java:226-228 | queues a child list in order: the queue's contents grow by exactly that list |
| Trees.GraftNext | Tree.java:119-122 | one more pass of the `addChildren` loop extends the child list of the cursor by the next fresh id and adds one empty child list |
| Trees.SmallLevelOrder | Tree.java:217-230 | level order of a root with children 1 and 2, and 3 under 1, is 0, 1, 2, 3 |
| Trees.BuildAndList | Tree.java:71-230 | adding root a, children b and c, then d under b, and listing, gives node order 0, 1, 2, 3 (d after its uncle c) and leaves the cursor on d |
| Traversal.GraftKeepsWellFormed | Tree.java:106-107 | creating a new node as the last child of an existing node keeps the arena a tree whose child lists are in creation order |
| Traversal.HasChildIff | Tree.java:167-176 | a node's child list is non-empty exactly when some node was created under it |
| Traversal.LevelOrderVisitsEveryNodeOnce | Tree.java:210-230 | the level order of a tree has one entry per node, starts at the root, repeats no node, contains every node and is sorted by depth |
| Traversal.WalkStarts | Tree.java:221-222 | a queue holding only the root, with nothing output, is the start of a walk |
| Traversal.WalkStep | Tree.java:223-228 | serving the front of a non-empty queue, outputting it and queueing its children keeps a walk state; the served node is a node of the tree |
| Traversal.WalkAdvances | Tree.java:224-228 | the same step while the current level still has unserved nodes |
| Traversal.WalkDescends | Tree.java:223-228 | once the current level is fully served, a non-empty queue is exactly the next level |
| Traversal.WalkEnds | Tree.java:223-230 | when the queue is empty, the output so far is the whole level order |
| Traversal.LevelsOrdered | Tree.java:223-228 | a group of distinct nodes at one depth, followed by the generations below it, is repetition-free and sorted by depth |
| Traversal.LevelsCover | Tree.java:223-228 | every node of a level within range appears in the concatenated levels |
| Traversal.NodeOnItsLevel | Tree.java:223-228 | every node lies on the level of its depth, and its depth is at most its id |
| Traversal.LevelFacts | Tree.java:223-228 | each level lists distinct nodes of the tree, all at that level's depth |
| Traversal.NextAtDepth | Tree.java:226-227 | the children of a group of distinct depth-`d` nodes are distinct depth-`d+1` nodes |
| Traversal.NextDistinct | Tree.java:226-227 | the children of a repetition-free group of nodes, concatenated, repeat no node |
| Traversal.ChildOnNextLevel | Tree.java:226-227 | a node created under a node of level `e` lies on level `e + 1` |
| Traversal.EmptyLevelStaysEmpty | Tree.java:223 | once a level is empty, all deeper levels are empty |
| Traversal.DistinctCoverLength | Tree.java:217-230 | a repetition-free list containing exactly the ids below `n` has length `n` |

## Left out

- The static `size` of Queue.java:21 is one counter shared by every queue; the model keeps one counter per queue. Trees.Tree.ToArrayList and Trees.BreadthFirst therefore assume that no other queue is non-empty while `toArrayList` runs. Otherwise the Java `q.enqueue(root)` sees a non-zero `size` on its fresh queue and dereferences its null `tail` (Queue.java:29, 36), throwing a NullPointerException, whereas the model lists the tree.
- The tree's `Iterator` and `iterator()` (Tree.java:31-56, 233-240) are not modelled. Its `hasNext` at line 54 returns `i >= list.size()`, the inverse of what a Java iterator promises.
- Trees.Tree.ToArrayList: the Java loop writes the cursor on every pass. The model leaves the loop in `BreadthFirst`, which hands back the last node served, and writes the cursor once when it ends. No caller can observe the cursor in between, and the final cursor is the same.
- Trees.Tree.SetPosition: a node reference from another tree, or a `null` argument, cannot be expressed with ids. The model requires, once a cursor exists, that `node` is a node of this tree.
- Trees.Tree.AddChild and Trees.Tree.Children require a cursor. The Java code dereferences a null cursor there and throws a NullPointerException, which the model does not represent.
- Trees.Tree.AddChildren requires a cursor only for a non-empty `xs`. With no cursor and a non-empty `xs`, the Java code raises `size` and then throws a NullPointerException; the model excludes that case. A `null` element array is excluded too.
- Trees.Tree.Size and Queues.Queue.Size use unbounded integers, so the 32-bit `int` wrap-around of `size` after 2^31 - 1 insertions is not modelled.
- `ArrayList`, Java arrays and node references are modelled as Dafny sequences and node ids; aliasing of the returned `children()` list with the tree's own list is not captured.
- Queues.Queue.Dequeue leaves `tail` on the removed cell when the queue becomes empty, as the Java code does; the model states nothing about `tail` for an empty queue.
- `Node.getElement` (Tree.java:21-28) is the plain read `elem[i]`.
