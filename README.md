# Binary search tree of the sorting visualiser

This project models the binary search tree behind a browser page that shows
numbers being sorted by insertion. The tree is made of heap `Node` objects:

- `add` walks down from the root. A value at least the current node's value
  goes right and a smaller one goes left. The new node is hung in the first
  empty child slot reached, one level deeper and 100 units lower than its
  parent. `add` returns the nodes it passed, ending with the new node.
- `sort` walks the tree in order and returns a trace of records:
  - a `forward` record for a node, before anything from its subtree;
  - a `value` record at the point where the node's key is emitted;
  - a `backward` record for the node, after everything from its subtree.
  The root gets only its `value` record.
- `clear` drops the root.
- The node constructor numbers nodes in creation order, using a counter that
  restarts at 0 whenever a level-0 (root) node is made.

How the model is built:

- `Nodes.Node` is a class. Only its `left` and `right` links are mutable.
- `BinaryTreeModel.BinaryTree` is a class holding `root` and the numbering
  counter.
- The shape the heap links describe is kept as a ghost `Tree` value, together
  with the ghost list of nodes created since the current root.
- `Valid()` ties the heap links to that shape. It also keeps the invariants:
  - the search-tree ordering, with ties going right;
  - each node's parent, level and coordinate;
  - creation-order numbering 0..n-1.
- `add`'s recursive `subtreeAdd` is a descent loop (`FindSlot`) followed by
  hanging the new node (`Attach`).
- `sort`'s recursive `traversalTree` is a recursive method that appends to the
  record list. It is proved equal to the pure `Traversal.Trace`, and the
  lemmas in `Traversal` state what that trace promises.
- `BuildOrder` models how the page uses the tree: add every number in turn,
  then read the keys off the `value` records.

## Model

| member | source | states |
|---|---|---|
| Nodes.Node.constructor | js/BinaryTree.js:11-22 | a new node carries the given value, level, parent, y and index, and has both child links empty |
| BinaryTreeModel.BinaryTree.NewNode | js/BinaryTree.js:8-12 | the numbering counter restarts at 0 for a level-0 node and otherwise goes up by one; the new node's index is the counter's new value |
| BinaryTreeModel.BinaryTree.constructor | js/BinaryTree.js:31-32 | a new tree is empty and satisfies the invariant |
| BinaryTreeModel.BinaryTree.Add | js/BinaryTree.js:43-75 | an absent value returns None and changes nothing (root, counter, shape and every node's links). Otherwise: into an empty tree the new node becomes the root at level 0 with no parent, and the result is just that root. Into a non-empty tree the result starts at the root, each later node is the child the tie-break rule picks, and it ends with the new node, whose parent is the node before it. Exactly one previously empty slot now holds the new node; no other node's links change. Level is path length - 1, y is the parent's y + 100, index is the creation count. The invariant (ordering, placement, numbering) is kept |
| BinaryTreeModel.BinaryTree.SubtreeAdd | js/BinaryTree.js:53-72 | on a non-empty tree: the returned path is the old search path for the value plus the new node, starts at the unchanged root, follows the heap's child links, and the parent's picked slot went from empty to the new node |
| BinaryTreeModel.BinaryTree.FindSlot | js/BinaryTree.js:57-71 | the descent returns the search path of the value. It starts at the root and passes only existing nodes, each the child the tie-break rule picks at the one before. At the last node the picked slot is empty, and that node's level and y match the path length |
| BinaryTreeModel.BinaryTree.FoundSlot | js/BinaryTree.js:64-66 | where the descent stops (the picked slot is empty), the nodes passed are exactly the search path, following the heap links |
| BinaryTreeModel.BinaryTree.Attach | js/BinaryTree.js:58-66 | the new node goes into the right slot when the value is at least the last node's value and into the left slot otherwise. It is one level below that node and 100 lower, numbered with the creation count. The shape becomes the inserted shape, the search path for the value now ends at the new node, and no other node's links change |
| BinaryTreeModel.BinaryTree.AttachKeepsValid | js/BinaryTree.js:64-65 | filling the picked empty slot with a fresh node, placed and numbered as above, restores the whole tree invariant over the inserted shape |
| BinaryTreeModel.InsertKeepsTree | js/BinaryTree.js:58-65 | inserting a fresh node at the end of its search path keeps the tree repeat-free, ordered and placed, and keeps the top. The parent's picked slot was empty, and the links change in that one slot plus the new node's entry |
| TreeShape.InsertOrdered | js/BinaryTree.js:58 | insertion by the tie-break rule (>= goes right) keeps every left-subtree key smaller than the node's key and every right-subtree key at least the node's key, duplicates included |
| TreeShape.InsertElements | js/BinaryTree.js:64-65 | insertion adds exactly the new node, and the size grows by one |
| TreeShape.InsertDistinct | js/BinaryTree.js:65 | hanging a node not yet in the tree keeps the tree free of repeated nodes |
| TreeShape.InsertTop | js/BinaryTree.js:49-54 | insertion into an empty tree makes the node the top; otherwise the top is unchanged |
| TreeShape.InsertSearchPath | js/BinaryTree.js:53-70 | after insertion, the search path for the new key is the old one followed by the new node |
| TreeShape.SearchPathFollowsLinks | js/BinaryTree.js:57-71 | the search path is empty only for an empty tree. Otherwise it starts at the top, lists tree nodes only, steps to the picked child each time, and ends where the picked slot is empty |
| TreeShape.InsertLinks | js/BinaryTree.js:64-70 | inserting a fresh node changes the links map in exactly one place: the empty slot picked at the end of the search path now holds the node. The node is added with two empty slots |
| TreeShape.InsertLinksHere | js/BinaryTree.js:64-66 | when the picked slot of the top is empty, that slot, and no other, is filled by the new node |
| TreeShape.InsertPlaced | js/BinaryTree.js:57-68 | a node whose parent, level and y come from the end of its search path keeps every node's parent, level and y consistent with its position |
| TreeShape.DescentStep | js/BinaryTree.js:67-70 | one more step to the picked, non-empty child keeps the descent invariant (path prefix of the search path, links followed, placement) |
| TreeShape.DescentEnd | js/BinaryTree.js:64-66 | when the picked slot is empty, the path so far is the whole search path, and its last node's level and y match the path length |
| TreeShape.ChildLinks | js/BinaryTree.js:100-112 | each subtree's links are links of the whole tree, and the top's entry names the two subtrees' tops |
| TreeShape.LinksDomain | js/BinaryTree.js:15-17 | the links map has exactly the tree's nodes as keys |
| TreeShape.InOrderElements | js/BinaryTree.js:100-112 | the in-order sequence has one entry per node, lists exactly the tree's nodes, and repeats none when the tree has no repeated node |
| TreeShape.InOrderSorted | js/BinaryTree.js:105-109 | in an ordered tree the in-order keys are non-decreasing |
| TreeShape.InsertValues | js/BinaryTree.js:64-65 | insertion adds the new key once to the multiset of in-order keys and changes nothing else |
| BinaryTreeModel.BinaryTree.TraversalTree | js/BinaryTree.js:100-112 | the records appended for a subtree are the accumulator followed by that subtree's trace: each node contributes its forward record (unless it is the root), the left subtree's records, its value record, the right subtree's records and its backward record (unless it is the root), in that order |
| BinaryTreeModel.BinaryTree.Sort | js/BinaryTree.js:93-118 | the result is the in-order trace: empty for an empty tree, otherwise 3n - 2 records. Its value records list every created node exactly once, in non-decreasing key order. Forward and backward records exist exactly for the non-root nodes, and the records nest properly |
| BinaryTreeModel.BinaryTree.SortTwice | js/BinaryTree.js:93-118 | sort changes nothing: two calls in a row return equal traces |
| BinaryTreeModel.BinaryTree.Clear | js/BinaryTree.js:122-124 | the tree becomes empty and still satisfies the invariant; the counter is untouched |
| BinaryTreeModel.BinaryTree.ClearThenAdd | js/BinaryTree.js:49-51 | after clear, the next add makes a fresh root at level 0 with no parent, at the start y, numbered 0, and returns just that root |
| BinaryTreeModel.BinaryTree.CreatedCount | js/BinaryTree.js:8-23 | the nodes numbered since the current root are exactly the tree's nodes, as many as the tree has |
| Traversal.TraceVisits | js/BinaryTree.js:107 | the value records of the trace list the nodes in in-order |
| Traversal.TraceLength | js/BinaryTree.js:100-112 | the trace has three records per node, minus two when the root is in the tree |
| Traversal.TraceRecords | js/BinaryTree.js:100-112 | a forward record and a backward record exist for a node exactly when it is in the tree and is not the root; a value record exists exactly for the tree's nodes |
| Traversal.TraceForwards | js/BinaryTree.js:103 | forward records exist exactly for the non-root nodes |
| Traversal.TraceBackwards | js/BinaryTree.js:111 | backward records exist exactly for the non-root nodes |
| Traversal.TraceValues | js/BinaryTree.js:107 | value records exist exactly for the tree's nodes |
| Traversal.TraceBalanced | js/BinaryTree.js:100-112 | the trace of any subtree closes every bracket it opens, in matching order, and leaves the surrounding open brackets as they were |
| Traversal.TraceNested | js/BinaryTree.js:100-117 | the whole trace nests properly: each backward record closes the most recent open forward for the same node, and nothing is left open |
| Traversal.TraceBracketed | js/BinaryTree.js:103-111 | a non-root node's trace begins with its forward record and ends with its backward record |
| Traversal.SubtreeStretch | js/BinaryTree.js:103-111 | the trace of each subtree appears as one contiguous stretch of the whole trace, so everything of a non-root node's subtree lies between its forward and backward records |
| Traversal.ScanAppend | js/BinaryTree.js:100-112 | matching the brackets of two pieces in a row is matching the first and continuing with what it leaves open |
| BuildOrder.AddNumber | js/utils_classes.js:208 | adding the next number keeps the invariant, and the multiset of in-order keys becomes the numbers added so far |
| BuildOrder.SortedKeys | js/main.js:35-42 | the keys of the value records are the in-order keys of the tree and are non-decreasing |
| BuildOrder.SortNumbers | js/utils_classes.js:201-212 | adding the numbers in turn and reading off the value records yields the same multiset of numbers, in non-decreasing order |

## Left out

- The `x` coordinate (`node.x + sign * start_x / 2^level`) is floating-point layout that has no bearing on the order, and is not modelled. So are the `isNaN` guards that replace a non-numeric coordinate by `null`.
- An absent value is `None` of an `Option<int>`. The source's `value == undefined` also matches `null`; both are the `None` case here. Non-numeric values and the string comparison JavaScript would do on them are not modelled; keys are integers.
- In the source the numbering counter lives in a closure shared by every tree on the page. Here the tree owns it. The page makes a single tree, so the behaviour is the same.
- The drawing (SVG), DOM updates, timers and event wiring around the tree are not part of this model. js/Graph.js, js/event_handlers.js and the DOM parts of js/main.js and js/utils_classes.js are not modelled.
- Records are a datatype `Forward | Value | Backward` over node references, not objects with a single `forward`, `value` or `backward` property.
