# Balanced trees, a thread pool, and four small containers

This project models, in Dafny 4.11, the parts of the repository that carry real
invariants, and proves what they are for:

* the two intrusive balanced trees under `binary-tree/new`: the AVL tree, which
  stores balance factors instead of heights, and the red-black tree with its
  double-black repair and its augmentation hooks;
* the bounded queue and the thread pool, as a transition system over all
  interleavings, with spurious wake-ups;
* the KMP prefix table, the binary heap and the Bloom filter.

`dafny verify dfyconfig.toml` checks everything.

## How the trees are modelled

`Trees` has the values: a tree of node references with a tag (balance factor or
colour) and a zipper `Path` for everything around one subtree. The loops that
climb parent pointers are functions from a path and a subtree to a tree
(`AvlShape.Retrace`, `RbShape.InsertFix`, `RbShape.EraseFix`), and their theorems
(`AvlShape.RetraceValid`, `RbShape.InsertFixValid`, `RbShape.EraseFixValid`) are
inductions on the path: the loop invariant is a statement about the hole.

`Links` has the heap: `At(Snap(S), c, t, root)` says that the link fields of the
nodes in `S` show the tree `t` in the hole of `c`. The methods in `RbTree` and
`AvlTree` run the C code's own branches on `class Node` objects in place, and
each is proved to leave the linked structure of the value-level function. The
public operations then state the whole new state: validity, the in-order
sequence and the node set. `Threads` adds the doubly linked list of the
`_AVL_NEXT_POINTER` build, so that the walk and the stored links are compared
on every reachable tree.

| file | contents |
|---|---|
| `Trees`, `Links`, `Search`, `Threads`, `Walk` | values, heap, key order, list, neighbours |
| `AvlShape`, `AvlTree`, `AvlWalk`, `AvlCheck` | `avltree.c` and `avltree_debug.c` |
| `RbShape`, `RbTree`, `RbWalk`, `RbAugment`, `RbAugmentTree` | `rbtree.c`, `rbwrap.c` |
| `Heights`, `Runs`, `Packing` | height bounds, whole runs on both trees, packed words |
| `ThreadPool`, `PoolSafety`, `PoolQueue`, `PoolWakeups`, `PoolDrain`, `PoolStop`, `SyncQueue` | `thread-pool.h`, `sync-queue.h` |
| `Kmp`, `MinHeap`, `Bloom` | `kmp.cpp`, `min-heap.h`, `bloom_filter.cpp` |

## Where the code and its promises differ

* `MinHeap::extract` erases every key equal to the last one. With equal keys it
  can lose keys, leave an unordered heap, or write to an empty vector;
  `MinHeap.ExtractsMinimumIff` gives the exact condition under which it is right,
  `MinHeap.OverrunIff` the one under which it writes out of bounds.
* A `SyncQueue` of capacity 0 puts every producer to sleep for good;
  `PoolSafety.NoLostWakeupOfProducers` gives the exact condition. The pool itself
  always uses capacity 100.
* `_rotate_LL` and `_rotate_RR` report a wrong height change when the parent
  leans the other way, as their comments demand it does not;
  `AvlShape.TurnLLExact` and `AvlShape.TurnRRExact` state this as an if-and-only-if.
* The double rotations of the AVL tree handle a child without an inner child;
  in a valid tree that case does not arise.
* A comment in `avl_remove` says that the successor has no right child. It may
  have one; it has no left child, and the code relinks the right one.

## Model

| member | source | states |
|---|---|---|
| `AvlTree.AvlInsert` | Data-Structures-and-Algorithms/binary-tree/new/avltree/avltree.c:445-549 | on linked nodes: from any valid tree sorted by the comparison, either a node with the same key is returned and no link, factor or thread changes, or the new node itself is returned and the in-order sequence is the old one with just that node put in at its sorted place; all factors are again exact and in -1..1, all parent links agree, and the thread of `prev`/`next` is the in-order sequence |
| `AvlTree.AvlRemove` | Data-Structures-and-Algorithms/binary-tree/new/avltree/avltree.c:551-679 | on linked nodes: removing any member leaves a valid threaded AVL tree whose in-order sequence is the old one minus that node; NULL changes nothing |
| `AvlTree.RetraceAt` | Data-Structures-and-Algorithms/binary-tree/new/avltree/avltree.c:504-544 | both upward loops (insertion with `grow`, removal without), on linked nodes, leave exactly the tree of the value-level loop `Retrace`, early stop included |
| `AvlTree.BalanceAt` | Data-Structures-and-Algorithms/binary-tree/new/avltree/avltree.c:200-234 | `_balance_tree` on linked nodes: the four rotations or a plain store, with every stored factor in -1..1 |
| `AvlTree.RotateLLAt` | Data-Structures-and-Algorithms/binary-tree/new/avltree/avltree.c:81-119 | `_rotate_LL`: the left child comes up, links and the factor of the old parent are written, factor and height change are returned for the caller |
| `AvlTree.RotateRRAt` | Data-Structures-and-Algorithms/binary-tree/new/avltree/avltree.c:121-160 | `_rotate_RR`: the right child comes up, links and the factor of the old parent are written, factor and height change are returned for the caller |
| `AvlTree.RotateLRAt` | Data-Structures-and-Algorithms/binary-tree/new/avltree/avltree.c:162-178 | `_rotate_LR` on linked nodes: the left child turned left, then the root turned right, joined through the returned height change |
| `AvlTree.RotateRLAt` | Data-Structures-and-Algorithms/binary-tree/new/avltree/avltree.c:180-196 | `_rotate_RL` on linked nodes: the right child turned right, then the root turned left |
| `AvlTree.SetBf` | Data-Structures-and-Algorithms/binary-tree/new/avltree/avltree.c:69-79 | a factor may only be stored when it is in -1..1; every call on every run meets this |
| `AvlTree.LRStores` | Data-Structures-and-Algorithms/binary-tree/new/avltree/avltree.c:162-178 | whenever the double rotation ends in an AVL tree, as it does from a tree two off balance, every factor it stores on the way is in -1..1 |
| `AvlTree.RLStores` | Data-Structures-and-Algorithms/binary-tree/new/avltree/avltree.c:180-196 | the same for the double rotation of a tree that is two off balance to the right |
| `AvlTree.AvlSearch` | Data-Structures-and-Algorithms/binary-tree/new/avltree/avltree.c:336-358 | returns the node at which the descent ends, in as many rounds as there are nodes on the way, at most the height of the tree |
| `AvlShape.TurnLLExact` | Data-Structures-and-Algorithms/binary-tree/new/avltree/avltree.c:87-108 | for all heights: the 0/1 stand-ins yield the true new factors of both nodes, and the height change is true if and only if the parent does not lean to the right |
| `AvlShape.TurnRRExact` | Data-Structures-and-Algorithms/binary-tree/new/avltree/avltree.c:127-149 | the same for the turn to the left: exact factors for all heights, exact height change if and only if the parent does not lean to the left |
| `AvlShape.BalanceExact` | Data-Structures-and-Algorithms/binary-tree/new/avltree/avltree.c:200-234 | a root off by at most two is balanced with exact factors everywhere, and the new root factor tells whether the tree became lower |
| `AvlShape.BalanceOrder` | Data-Structures-and-Algorithms/binary-tree/new/avltree/avltree.c:200-234 | balancing never changes the in-order sequence |
| `AvlShape.CarryExact` | Data-Structures-and-Algorithms/binary-tree/new/avltree/avltree.c:521-541 | comparing absolute factors tells exactly whether the subtree changed its height: with carry 0 all factors above are already right, otherwise the same situation holds one level up |
| `AvlShape.RetraceValid` | Data-Structures-and-Algorithms/binary-tree/new/avltree/avltree.c:504-544 | the upward loop ends with every factor of the whole tree exact, although it stops at the first carry 0 |
| `AvlShape.RetraceOrder` | Data-Structures-and-Algorithms/binary-tree/new/avltree/avltree.c:638-676 | and it keeps the in-order sequence |
| `AvlShape.InsertedValid` | Data-Structures-and-Algorithms/binary-tree/new/avltree/avltree.c:471-544 | the tree after insertion at a hole: exact factors, and the node exactly at that place in the order |
| `AvlShape.RemoveHolePending` | Data-Structures-and-Algorithms/binary-tree/new/avltree/avltree.c:569-628 | after unlinking, the loop starts at a node whose subtree is off by exactly the `bf` it starts with |
| `AvlShape.RemovedValid` | Data-Structures-and-Algorithms/binary-tree/new/avltree/avltree.c:551-679 | the tree after removal: exact factors, one node less in order and in the node set |
| `AvlCheck.IntegrityCheck` | Data-Structures-and-Algorithms/binary-tree/new/debug/avltree_debug.c:67-95 | the recursive check passes if and only if every factor is the right depth minus the left depth and in -1..1, and then returns the height |
| `AvlCheck.CheckValid` | Data-Structures-and-Algorithms/binary-tree/new/debug/avltree_debug.c:67-95 | after any insertion or removal it passes |
| `AvlWalk.AvlNext` | Data-Structures-and-Algorithms/binary-tree/new/avltree/avltree.c:260-296 | the parent-pointer walk returns the in-order successor, which is also what the `next` pointer of the threaded build holds |
| `AvlWalk.AvlPrev` | Data-Structures-and-Algorithms/binary-tree/new/avltree/avltree.c:298-334 | the same for the predecessor and `prev` |
| `AvlWalk.AvlFirst` | Data-Structures-and-Algorithms/binary-tree/new/avltree/avltree.c:236-246 | the first node in order, or NULL |
| `AvlWalk.AvlLast` | Data-Structures-and-Algorithms/binary-tree/new/avltree/avltree.c:248-258 | the last node in order, or NULL |
| `AvlWalk.AvlSearchGreater` | Data-Structures-and-Algorithms/binary-tree/new/avltree/avltree.c:360-395 | the least node not below the query, or NULL when all are below |
| `AvlWalk.AvlSearchSmaller` | Data-Structures-and-Algorithms/binary-tree/new/avltree/avltree.c:397-432 | the greatest node not above the query, or NULL when all are above |
| `AvlWalk.LeastFound` | Data-Structures-and-Algorithms/binary-tree/new/avltree/avltree.c:385-394 | why the last node visited decides: it or its successor is the least node not below the query |
| `AvlWalk.GreatestFound` | Data-Structures-and-Algorithms/binary-tree/new/avltree/avltree.c:422-431 | likewise it or its predecessor is the greatest node not above the query |
| `AvlWalk.Sweep` | Data-Structures-and-Algorithms/binary-tree/new/example/avl_example.c:110-117 | taking the next node and then removing the current one visits the old in-order sequence once, in order, and ends with an empty tree |
| `AvlWalk.SweepStep` | Data-Structures-and-Algorithms/binary-tree/new/example/avl_example.c:112-116 | the cursor saved before the removal is a live node and the new first one |
| `Threads.ThreadBefore` | Data-Structures-and-Algorithms/binary-tree/new/avltree/avltree.c:482-487 | threading in before a node: the list is the sequence with the node put in |
| `Threads.ThreadAfter` | Data-Structures-and-Algorithms/binary-tree/new/avltree/avltree.c:491-496 | threading in after a node |
| `Threads.Unthread` | Data-Structures-and-Algorithms/binary-tree/new/avltree/avltree.c:564-567 | taking a node out of the list |
| `RbTree.RbwrapInsert` | Data-Structures-and-Algorithms/binary-tree/new/rbtree/rbwrap.c:41-49 | on linked nodes: from any valid sorted red-black tree, either the node with the same key is returned and nothing changes, or NULL is returned and the in-order sequence is the old one with just the new node at its sorted place; root black, no red child of a red node, equal black heights, parent links consistent |
| `RbTree.FindLink` | Data-Structures-and-Algorithms/binary-tree/new/rbtree/rbwrap.c:16-31 | the descent over pointers to links ends at the node with the key or at the empty link where it belongs |
| `RbTree.RbwrapSearch` | Data-Structures-and-Algorithms/binary-tree/new/rbtree/rbwrap.c:51-68 | returns the node at which the descent ends, in as many rounds as there are nodes on the way, at most the height of the tree |
| `RbTree.InsertColor` | Data-Structures-and-Algorithms/binary-tree/new/rbtree/rbtree.c:72-135 | `rb_insert_color` on linked nodes leaves the tree of the value-level loop `InsertFix`; it terminates and the grandparent always exists |
| `RbTree.Erase` | Data-Structures-and-Algorithms/binary-tree/new/rbtree/rbtree.c:218-283 | on linked nodes: erasing any member of any valid red-black tree leaves a valid one whose in-order sequence and node set are the old ones minus that node |
| `RbTree.EraseColor` | Data-Structures-and-Algorithms/binary-tree/new/rbtree/rbtree.c:138-216 | `__rb_erase_color` on linked nodes: terminates, never meets a missing sibling or nephew, and leaves the tree of the value-level loop `EraseFix` |
| `RbTree.EraseInner` | Data-Structures-and-Algorithms/binary-tree/new/rbtree/rbtree.c:229-262 | splicing a node with two children: the successor takes its place and colour, and the hole is where the colour repair starts |
| `RbTree.RotateLeft` | Data-Structures-and-Algorithms/binary-tree/new/rbtree/rbtree.c:26-47 | linked around an arbitrary path, the right child comes up and nothing else changes |
| `RbTree.RotateRight` | Data-Structures-and-Algorithms/binary-tree/new/rbtree/rbtree.c:49-70 | linked around an arbitrary path, the left child comes up and nothing else changes |
| `RbShape.InsertFixValid` | Data-Structures-and-Algorithms/binary-tree/new/rbtree/rbtree.c:76-134 | from a tree whose only fault may be a red node under a red parent, the loop restores every rule and keeps the order |
| `RbShape.RecoloredRb` | Data-Structures-and-Algorithms/binary-tree/new/rbtree/rbtree.c:83-91 | the recolouring step moves exactly that fault two levels up |
| `RbShape.TurnedRb` | Data-Structures-and-Algorithms/binary-tree/new/rbtree/rbtree.c:94-105 | the final rotations remove it |
| `RbShape.SiblingExists` | Data-Structures-and-Algorithms/binary-tree/new/rbtree/rbtree.c:147-154 | while one black is missing the sibling exists, and after the first rotation it is black |
| `RbShape.EraseFixValid` | Data-Structures-and-Algorithms/binary-tree/new/rbtree/rbtree.c:143-215 | from a tree with exactly one black missing on the way into one node, the loop restores every rule and keeps the order |
| `RbShape.EraseHoleShort` | Data-Structures-and-Algorithms/binary-tree/new/rbtree/rbtree.c:223-278 | after a black node was spliced out exactly one black is missing; after a red one the tree is valid as it is |
| `RbShape.ErasedValid` | Data-Structures-and-Algorithms/binary-tree/new/rbtree/rbtree.c:218-283 | the tree after erasure: a valid red-black tree with just that node gone |
| `RbWalk.RbNext` | Data-Structures-and-Algorithms/binary-tree/new/rbtree/rbtree.c:386-412 | the in-order successor |
| `RbWalk.RbPrev` | Data-Structures-and-Algorithms/binary-tree/new/rbtree/rbtree.c:415-437 | the in-order predecessor |
| `RbWalk.RbFirst` | Data-Structures-and-Algorithms/binary-tree/new/rbtree/rbtree.c:360-370 | the first node in order, or NULL |
| `RbWalk.RbLast` | Data-Structures-and-Algorithms/binary-tree/new/rbtree/rbtree.c:373-383 | the last node in order, or NULL |
| `RbWalk.Sweep` | Data-Structures-and-Algorithms/binary-tree/new/bench/bench.cc:162-167 | advancing and then erasing visits the old in-order sequence once and ends with an empty tree |
| `RbWalk.RbReplaceNode` | Data-Structures-and-Algorithms/binary-tree/new/rbtree/rbtree.c:440-461 | the tree stays valid and its in-order sequence has the new node in the place of the old one |
| `RbAugmentTree.InsertAugmented` | Data-Structures-and-Algorithms/binary-tree/new/rbtree/rbtree.c:309-317 | for every augmentation computed from a node and its children: insertion followed by `rb_augment_insert` makes the value of every node right again; either a node with the same key is returned and the tree is as before, or the new node is in the tree at its sorted place |
| `RbAugmentTree.EraseAugmented` | Data-Structures-and-Algorithms/binary-tree/new/rbtree/rbtree.c:324-354 | `rb_augment_erase_begin`, `rb_erase`, `rb_augment_erase_end` likewise |
| `RbAugmentTree.AugmentPath` | Data-Structures-and-Algorithms/binary-tree/new/rbtree/rbtree.c:286-303 | repairing one path and its siblings makes every value right when all damage is on that path or beside it |
| `RbAugmentTree.AugmentEraseBegin` | Data-Structures-and-Algorithms/binary-tree/new/rbtree/rbtree.c:324-343 | finds the deepest node of the path that stays in the tree |
| `RbAugment.CountsAreSizes` | Data-Structures-and-Algorithms/binary-tree/new/rbtree/rbtree.c:286-355 | for the augmentation that adds up both children the value of every node is the number of nodes of its subtree |
| `RbAugment.FirstKeysAreFirst` | Data-Structures-and-Algorithms/binary-tree/new/rbtree/rbtree.c:286-355 | for the one that looks to the left only it is the first key of the subtree |
| `RbAugment.InsertedShaken` | Data-Structures-and-Algorithms/binary-tree/new/rbtree/rbtree.c:309-317 | what an insertion and its rotations can damage |
| `RbAugment.ShakenRepairable` | Data-Structures-and-Algorithms/binary-tree/new/rbtree/rbtree.c:311-314 | starting at a child of the new node covers all of that |
| `RbAugment.ErasedMendable` | Data-Structures-and-Algorithms/binary-tree/new/rbtree/rbtree.c:324-343 | everything an erasure and its rotations damage is on the path from the node found beforehand, or beside it |
| `Links.SpinLeft` | Data-Structures-and-Algorithms/binary-tree/new/rbtree/rbtree.c:28-46 | relinking three nodes turns exactly the subtree and leaves everything around it |
| `Links.SpinRight` | Data-Structures-and-Algorithms/binary-tree/new/rbtree/rbtree.c:51-69 | the same for the other direction |
| `Links.TakePlace` | Data-Structures-and-Algorithms/binary-tree/new/rbtree/rbtree.c:235-260 | one node takes over the links, parent and tag of another |
| `Links.DetachMin` | Data-Structures-and-Algorithms/binary-tree/new/rbtree/rbtree.c:243-256 | the leftmost node of a subtree is unlinked |
| `Search.SearchEnds` | Data-Structures-and-Algorithms/binary-tree/new/rbtree/rbwrap.c:16-31 | in a sorted tree a descent ends at a node with the key, or at the one hole where putting the key keeps the order, and then no node has that key |
| `Search.HoleForNew` | Data-Structures-and-Algorithms/binary-tree/new/rbtree/rbwrap.c:33-36 | at that hole a new node fits the sorted order |
| `Heights.AvlSize` | Data-Structures-and-Algorithms/binary-tree/new/avltree/avltree.c:336-358 | an AVL tree of height `h` has at least `Fib(h + 2) - 1` nodes |
| `Heights.RbSize` | Data-Structures-and-Algorithms/binary-tree/new/rbtree/rbwrap.c:51-68 | a red-black tree has at least 2 to its black height, minus one, nodes, and is at most twice as high |
| `Heights.RbHeight` | Data-Structures-and-Algorithms/binary-tree/new/rbtree/rbwrap.c:51-68 | the height of a red-black tree of `n` nodes is at most twice the binary logarithm of `n + 1` |
| `Heights.AvlRounds` | Data-Structures-and-Algorithms/binary-tree/new/avltree/avltree.c:344-355 | so a search in an AVL tree of `n` nodes takes logarithmically many rounds |
| `Heights.RbRounds` | Data-Structures-and-Algorithms/binary-tree/new/rbtree/rbwrap.c:57-66 | and so does one in a red-black tree |
| `Runs.RunAvl` | Data-Structures-and-Algorithms/binary-tree/new/avltree/avltree.c:336-679 | every finite run of insertions, searches and removals on an AVL tree, from the empty one, answers like an ordered set: an insertion succeeds exactly when the key is not present, a search and a removal exactly when it is, where present means inserted earlier and not removed since |
| `Runs.RunRb` | Data-Structures-and-Algorithms/binary-tree/new/rbtree/rbwrap.c:14-68 | every such run on a red-black tree answers the same, with the arguments of the comparison the other way round |
| `Runs.SetAnswersByHistory` | Data-Structures-and-Algorithms/binary-tree/new/avltree/avltree.c:336-679 | the ordered set answers every operation as the operations before it demand |
| `Runs.AvlDo` | Data-Structures-and-Algorithms/binary-tree/new/avltree/avltree.c:336-679 | one operation: the keys and the answer are those of the set |
| `Runs.RbDo` | Data-Structures-and-Algorithms/binary-tree/new/rbtree/rbwrap.c:14-68 | one operation: the keys and the answer are those of the set |
| `Packing.AvlFactorFits` | Data-Structures-and-Algorithms/binary-tree/new/avltree/avltree.c:69-79 | a factor written into the packed word can be read back if and only if it is -1, 0, 1 or 2 |
| `Packing.AvlFactorBeside` | Data-Structures-and-Algorithms/binary-tree/new/avltree/avltree.h:60-67 | and then the parent address is untouched |
| `Packing.AvlParentFits` | Data-Structures-and-Algorithms/binary-tree/new/avltree/avltree.c:48-52 | a parent can be read back beside an unchanged factor if and only if its address is aligned |
| `Packing.RbColorFits` | Data-Structures-and-Algorithms/binary-tree/new/rbtree/rbtree.h:133-136 | a colour can be read back if and only if it is one of the two |
| `Packing.RbColorBeside` | Data-Structures-and-Algorithms/binary-tree/new/rbtree/rbtree.h:122-127 | and then the parent address is untouched |
| `Packing.RbParentFits` | Data-Structures-and-Algorithms/binary-tree/new/rbtree/rbtree.h:129-132 | a parent can be read back beside an unchanged colour if and only if it is aligned; a bare parent reads as red |
| `PoolSafety.OnePlace` | thread-pool/thread-pool.h:54-97 | over all interleavings each submitted task is in exactly one of: with its caller, refused, queued, in one batch, started, discarded; so it is started at most once, and only if submitted |
| `PoolSafety.FirstInFirstOut` | thread-pool/sync-queue.h:42-63 | the batches in lock order followed by the queue are the pushes in order, the queue never exceeds its capacity, and a lone worker starts tasks in that order (for more workers see `PoolQueue.EachWorkerInOrder`) |
| `PoolQueue.EachWorkerInOrder` | thread-pool/thread-pool.h:81-97 | for every number of workers, every worker and every run: the tasks it holds and then takes, in lock order, are in this order those it starts, those it still holds, and those it discards when it finds the pool stopped |
| `PoolQueue.StepExtendsHistories` | thread-pool/thread-pool.h:54-97 | the histories of pushes, takes, starts, refusals and discards only grow, each by its own kind of step |
| `PoolQueue.AddWaitsIffFull` | thread-pool/sync-queue.h:99-122 | a caller is put to sleep exactly when the pool has not stopped and the queue holds `capacity` tasks or more; otherwise its task is pushed, or refused after `stop` |
| `PoolQueue.LengthsReached` | thread-pool/sync-queue.h:99-105 | a queue length is reached by some run if and only if it is at most the capacity |
| `PoolWakeups.PushWakesOne` | thread-pool/sync-queue.h:120-121 | every push leaves exactly one sleeping worker less if there is one, whatever the other workers are busy with |
| `PoolWakeups.TakeWakesOne` | thread-pool/sync-queue.h:49-62 | every `take` that gets something leaves exactly one blocked caller less if there is one |
| `PoolWakeups.BlockedCallersCovered` | thread-pool/sync-queue.h:42-63 | over all runs and capacities: while a caller is blocked, the free places without a caller on its way are at most what batches took beyond one task each |
| `PoolWakeups.SingleTakesHaveNoSurplus` | thread-pool/sync-queue.h:53-63 | with the single `take` there are none |
| `PoolWakeups.AnyThreadCanMove` | thread-pool/sync-queue.h:42-63 | a thread at the mutex can always enter either `take` or `add`; `notify_one` may wake any sleeping thread; any sleeping thread may wake up by itself |
| `PoolSafety.NoLostWakeupOfProducers` | thread-pool/sync-queue.h:112-122 | before `stop`, no reachable state has a producer asleep with an empty queue and no producer on its way, if and only if the capacity is at least 1 (or there are no producers) |
| `PoolSafety.NoLostWakeupOfWorkers` | thread-pool/sync-queue.h:42-51 | before `stop`, no reachable state has a non-empty queue with every worker asleep, if and only if there is a worker (or nothing can be queued); and while any worker sleeps, at least as many workers are on their way to `take`, not counting those busy with other tasks, as there are tasks queued |
| `PoolSafety.ZeroCapacityStarves` | thread-pool/sync-queue.h:99-105 | the run that shows it for capacity 0 |
| `PoolSafety.StopFreezesQueue` | thread-pool/sync-queue.h:65-73 | once `m_needStop` is set nothing is pushed or taken on any run |
| `PoolSafety.NobodySleepsAfterStop` | thread-pool/sync-queue.h:65-73 | once both `notify_all` have happened nobody is or ever becomes asleep |
| `PoolSafety.OneLateStart` | thread-pool/thread-pool.h:89-95 | on every run from any moment after `m_running` has become false each worker starts at most one more task, the one for which it had already looked at the flag |
| `PoolSafety.NothingHeldAfterJoin` | thread-pool/thread-pool.h:99-110 | when `stop` has returned no worker holds a task: what was submitted is refused, queued, started, discarded or still with its caller |
| `PoolSafety.StepInv` | thread-pool/thread-pool.h:54-110 | every step of every thread keeps the whole invariant |
| `PoolStop.FlagsSetOnce` | thread-pool/thread-pool.h:99-102 | `m_needStop` is set by one step of `stop` and `m_running` cleared by a later one, and by nothing else |
| `PoolStop.WorkersSettle` | thread-pool/thread-pool.h:81-107 | after `m_running` is false all workers together take at most four steps each, whatever else happens |
| `PoolStop.StopCompletes` | thread-pool/thread-pool.h:99-110 | from every state that satisfies the invariant, whatever the threads are doing, `stop` can run to its end without any spurious wake-up |
| `PoolStop.WorkersCanReturn` | thread-pool/thread-pool.h:104-108 | after `m_running` is false some worker can go on until all have returned, and then `join` can |
| `PoolDrain.EveryTaskStarts` | thread-pool/thread-pool.h:54-97 | from every reachable state of an open pool and for every schedule of its threads: without new submissions they take a bounded number of steps, and when none can go on every submitted task has been started exactly once |
| `PoolDrain.StepUnloads` | thread-pool/sync-queue.h:42-122 | each step of a caller or worker that is not a spurious wake-up strictly reduces the work left, though threads fall asleep and are woken in between |
| `PoolStop.NoDeadlock` | thread-pool/sync-queue.h:112-122 | before `stop`, queued work or a waiting caller means some worker or caller can go on without a spurious wake-up |
| `PoolStop.CallersReturn` | thread-pool/sync-queue.h:112-118 | after `stop` has notified the producers every caller of `put` can return, its task refused |
| `SyncQueue.Queue.Add` | thread-pool/sync-queue.h:112-122 | the critical section waits if and only if `m_needStop` is unset and the queue holds `m_maxSize` tasks or more, is refused if and only if `m_needStop` is set, and appends the task otherwise; it is the step of the transition system in all three outcomes |
| `SyncQueue.Queue.TakeAll` | thread-pool/sync-queue.h:42-51 | waits if and only if the queue is empty and `m_needStop` unset; otherwise hands over the whole queue and leaves it empty, or nothing after `stop`; it is the step of the transition system |
| `SyncQueue.Queue.TakeOne` | thread-pool/sync-queue.h:53-63 | likewise, handing over just the front task; after `stop` the variable of the caller keeps its value |
| `SyncQueue.Queue.Stop` | thread-pool/sync-queue.h:65-70 | sets the flag and nothing else, as the step of the transition system |
| `Kmp.PrefixTable` | Data-Structures-and-Algorithms/kmp.cpp:3-29 | every `prefix[i]` becomes the length of the longest proper border of `p[0..i]` found by trying all lengths, no other element changes, and the loop runs between `n - 1` and `2 * (n - 1)` times |
| `Kmp.LongestIsBorder` | Data-Structures-and-Algorithms/kmp.cpp:3-29 | that length is a border, and no border is longer |
| `Kmp.FallBack` | Data-Structures-and-Algorithms/kmp.cpp:16-21 | after a mismatch no longer border than that of the current border can be extended |
| `Kmp.Agree` | Data-Structures-and-Algorithms/kmp.cpp:10-15 | after a match the border is the longest one |
| `Kmp.ChainIsAllBorders` | Data-Structures-and-Algorithms/kmp.cpp:18-21 | following the table from a length meets exactly all borders |
| `MinHeap.ExtractsMinimumIff` | Data-Structures-and-Algorithms/min-top-heap/min-heap.h:53-82 | `extract` returns a least key, removes that one only and keeps the heap order if and only if the last key occurs once in the heap, since it erases every key equal to the last |
| `MinHeap.OverrunIff` | Data-Structures-and-Algorithms/min-top-heap/min-heap.h:68-77 | for every heap: `extract` writes to element 0 of an empty vector if and only if there are two or more keys and all are equal |
| `MinHeap.ExtractedContents` | Data-Structures-and-Algorithms/min-top-heap/min-heap.h:68-77 | for every other heap, with whatever duplicates: all copies of the last key but one are gone, and with them the first key that differs from it |
| `MinHeap.ExtractedOrdered` | Data-Structures-and-Algorithms/min-top-heap/min-heap.h:77-79 | the result is a heap whenever erasing leaves everything below the root in order |
| `MinHeap.KeptCount` | Data-Structures-and-Algorithms/min-top-heap/min-heap.h:71-75 | `remove_if` keeps every other key as often as it occurs |
| `MinHeap.KeptConcat` | Data-Structures-and-Algorithms/min-top-heap/min-heap.h:71-75 | and keeps their order |
| `MinHeap.DuplicatesBreakExtract` | Data-Structures-and-Algorithms/min-top-heap/min-heap.h:68-79 | a heap on which it loses keys and leaves an unordered one |
| `MinHeap.EqualKeysOverrun` | Data-Structures-and-Algorithms/min-top-heap/min-heap.h:71-77 | a heap on which it writes to an empty vector |
| `MinHeap.InsertedIsHeap` | Data-Structures-and-Algorithms/min-top-heap/min-heap.h:39-51 | `insert` keeps the heap order and adds exactly the key, for all keys |
| `MinHeap.SiftUpOrders` | Data-Structures-and-Algorithms/min-top-heap/min-heap.h:120-132 | from a heap with one key too small, sifting up restores the order |
| `MinHeap.SiftDownOrders` | Data-Structures-and-Algorithms/min-top-heap/min-heap.h:134-156 | from a heap with one key too large, sifting down restores the order |
| `MinHeap.HeapRefinesSet` | Data-Structures-and-Algorithms/min-top-heap/min-heap.h:39-82 | every run that inserts no key while it is live answers like a set from which the least key is taken |
| `MinHeap.DrainSorts` | Data-Structures-and-Algorithms/min-top-heap/min-heap.h:53-82 | draining a heap of distinct keys returns them all in ascending order |
| `MinHeap.Heap.Insert` | Data-Structures-and-Algorithms/min-top-heap/min-heap.h:46-51 | on the vector: the value-level insertion, which keeps order and contents |
| `MinHeap.Heap.Extract` | Data-Structures-and-Algorithms/min-top-heap/min-heap.h:53-82 | on the vector: an error exactly on the empty heap, an out-of-bounds write exactly when two or more keys are all equal, the first key otherwise, and the vector that the laws of extraction speak of |
| `MinHeap.Heap.SiftUpFrom` | Data-Structures-and-Algorithms/min-top-heap/min-heap.h:120-132 | the loop computes the value-level sifting |
| `MinHeap.Heap.SiftDownFrom` | Data-Structures-and-Algorithms/min-top-heap/min-heap.h:134-156 | the recursion computes the value-level sifting |
| `MinHeap.Heap.Min` | Data-Structures-and-Algorithms/min-top-heap/min-heap.h:94-101 | a least key, or the error on an empty heap |
| `Bloom.Filter.Check` | Data-Structures-and-Algorithms/布隆过滤器/bloom_filter.cpp:106-118 | yes if and only if each hash function gives the string an index that some hash function gives to some added string; so yes for every added string |
| `Bloom.Filter.Add` | Data-Structures-and-Algorithms/布隆过滤器/bloom_filter.cpp:93-104 | sets exactly the bits of the string and clears none; the bits are those of all strings added so far |
| `Bloom.Filter.SetBit` | Data-Structures-and-Algorithms/布隆过滤器/bloom_filter.cpp:46 | the packed bytes refine a set of indices: one bit is added, in bounds |
| `Bloom.SetsOneBit` | Data-Structures-and-Algorithms/布隆过滤器/bloom_filter.cpp:46-49 | setting one bit of a byte changes no other |
| `Bloom.MarkedBy` | Data-Structures-and-Algorithms/布隆过滤器/bloom_filter.cpp:93-118 | a bit is set if and only if some added string has it |
| `Bloom.Filter.constructor` | Data-Structures-and-Algorithms/布隆过滤器/bloom_filter.cpp:51-82 | a new filter has no bit set |

## Left out

- `avl_insert` and `avl_remove` each have their own copy of the upward loop; one method with a flag models both, as the copies differ only in signs.
- When a node with two children is spliced out, the model first unlinks the successor and then relinks the parent of the node, where the C code does one or the other first; they are different links.
- One class `Node` stands for `avl_node` and `rb_node`; the fields a structure does not have are not used by its operations.
- The parent and the factor or colour are separate fields of `Node`; that sharing one word is safe is the subject of `Packing`, with addresses as 64-bit words. The `_AVL_SEPARATE_PARENT_BF` build is the same without that question.
- Comparison functions are pure functions on integer keys forming a total preorder, with the user data folded in; a comparison that is not an order is not modelled.
- In `rb_next` and `rb_prev` the test for an empty node whose parent is itself is not modelled, as no member of a tree is one; `rb_init_node` and `RB_CLEAR_NODE` go with it.
- `_avl_display`, `_space` and all other printing, timing and benchmarking code.
- Task bodies, results and exceptions, `std::future`, `std::packaged_task`, `std::call_once` and `std::thread` internals. A pool is stopped once.
- The C++ memory model: a step of the pool is one critical section or one access to `m_running`, and a moved-from list is empty.
- `SyncQueue` capacities are natural numbers; a negative `m_maxSize` would be compared as a huge one. `empty`, `full`, `size` and the unlocked `count` are not modelled.
- `PoolDrain` and `PoolStop` bound the steps threads take and show that one is possible until the work is done; that the scheduler takes them is left to the scheduler.
- Tasks that call `add_task` themselves: a worker that waits for room in its own queue is not modelled.
- The state of the heap after the write to element 0 of an empty vector is undefined in C++; the model stops with the vector empty.
- Heap keys are integers, and `remove_if` is the function `MinHeap.Kept`; the vector's growth and `show` are not modelled.
- Hash functions are arbitrary functions from strings to naturals; `sax_hash`, `sdbm_hash`, their 32-bit arithmetic and the false-positive rate are not modelled, nor are allocation failures.
- `binary-tree/avl-tree.h`, `bst-tree.h` and `binary-tree.h`: unfinished or plain containers whose intent the trees above cover.
- `memory-pool`, `module`, `bplustree-db` and `coroutine`: allocators with inconsistent accounting, callback plumbing, declarations and prose.
